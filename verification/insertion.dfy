/** Point location and the split of the containing triangle into three (the
    insertion half of one step of the incremental Delaunay triangulation). */
module Insertion {
  import opened Geometry
  import opened Mesh

  /** Tolerance below which a positive edge-side value still counts as "on the edge". */
  const OnEdgeTolerance: real := 0.0000000001

  /** Whether the signed edge-side values S1, S2, S3 of a point place it inside a
      triangle: all three negative, or one of them below the tolerance while the
      other two are negative. */
  predicate PointWithinTriangle(s1: real, s2: real, s3: real) {
    (s1 < 0.0 && s2 < 0.0 && s3 < 0.0)
    || (s1 < OnEdgeTolerance && s2 < 0.0 && s3 < 0.0)
    || (s2 < OnEdgeTolerance && s1 < 0.0 && s3 < 0.0)
    || (s3 < OnEdgeTolerance && s1 < 0.0 && s2 < 0.0)
  }

  /** How many of the three edge-side values are not negative. */
  function NonNegatives(s1: real, s2: real, s3: real): (c: nat)
    ensures c <= 3
  {
    (if s1 >= 0.0 then 1 else 0) + (if s2 >= 0.0 then 1 else 0) + (if s3 >= 0.0 then 1 else 0)
  }

  /** The containment test accepts a point exactly when at most one edge-side value
      is non-negative and every value is below the tolerance. */
  lemma PointWithinTriangleCount(s1: real, s2: real, s3: real)
    ensures PointWithinTriangle(s1, s2, s3)
        <==> NonNegatives(s1, s2, s3) <= 1
             && s1 < OnEdgeTolerance && s2 < OnEdgeTolerance && s3 < OnEdgeTolerance
  {
  }

  /** The test does not depend on which edge is numbered first. */
  lemma PointWithinTriangleRotation(s1: real, s2: real, s3: real)
    ensures PointWithinTriangle(s1, s2, s3) == PointWithinTriangle(s2, s3, s1)
  {
  }

  /** Neighbour slot k of record T is -1, or names another record that lists T. */
  predicate NeighbourListsBack(tris: seq<Polygon>, T: int, k: int)
    requires 0 <= T < |tris| && Shaped(tris[T]) && 0 <= k < 3
  {
    var e := tris[T].edges[k];
    e >= 0 ==> e < |tris| && e != T && Shaped(tris[e]) && SlotOf(tris[e].edges, T) >= 0
  }

  /** What the split of record T reads and writes is there: T exists, each of its
      neighbours lists it back, and no neighbour is listed twice. */
  predicate SplitSafe(tris: seq<Polygon>, T: int) {
    0 <= T < |tris| && Shaped(tris[T])
    && NeighbourListsBack(tris, T, 0) && NeighbourListsBack(tris, T, 1)
    && NeighbourListsBack(tris, T, 2)
    && var e := tris[T].edges;
    (e[0] >= 0 ==> e[0] != e[1] && e[0] != e[2]) && (e[1] >= 0 ==> e[1] != e[2])
  }

  /** The triangle list after point i is inserted into record T = (v0, v1, v2)
      with neighbours (A, B, C): T becomes (i, v0, v1), two records (i, v1, v2)
      and (i, v2, v0) are appended at n = |tris| and n + 1, and the former
      neighbours B and C are relinked to the appended records. A keeps T. */
  function Split(tris: seq<Polygon>, T: int, i: int): (r: seq<Polygon>)
    requires SplitSafe(tris, T)
    ensures |r| == |tris| + 2
  {
    var n := |tris|;
    var p := tris[T];
    var grown := tris + [Polygon([i, p.vertices[1], p.vertices[2]], [T, p.edges[1], n + 1]),
                         Polygon([i, p.vertices[2], p.vertices[0]], [n, p.edges[2], T])];
    var withB := if p.edges[1] >= 0 then grown[p.edges[1] := Relink(tris[p.edges[1]], T, n)] else grown;
    var withC := if p.edges[2] >= 0 then withB[p.edges[2] := Relink(tris[p.edges[2]], T, n + 1)] else withB;
    withC[T := Polygon([i, p.vertices[0], p.vertices[1]], [n + 1, p.edges[0], n])]
  }

  /** r is the list that splitting record T at point i produces, record by record. */
  ghost predicate IsSplit(tris: seq<Polygon>, T: int, i: int, r: seq<Polygon>)
    requires SplitSafe(tris, T)
  {
    var n, p := |tris|, tris[T];
    && |r| == n + 2
    && r[T] == Polygon([i, p.vertices[0], p.vertices[1]], [n + 1, p.edges[0], n])
    && r[n] == Polygon([i, p.vertices[1], p.vertices[2]], [T, p.edges[1], n + 1])
    && r[n + 1] == Polygon([i, p.vertices[2], p.vertices[0]], [n, p.edges[2], T])
    && (p.edges[1] >= 0 ==> r[p.edges[1]] == Relink(tris[p.edges[1]], T, n))
    && (p.edges[2] >= 0 ==> r[p.edges[2]] == Relink(tris[p.edges[2]], T, n + 1))
    && (forall t | 0 <= t < n && t != T && t != p.edges[1] && t != p.edges[2] :: r[t] == tris[t])
  }

  /** The records of a split, one by one. */
  lemma SplitRecords(tris: seq<Polygon>, T: int, i: int)
    requires SplitSafe(tris, T)
    ensures IsSplit(tris, T, i, Split(tris, T, i))
  {
  }

  /** The split is determined record by record: any list that has the records
      of a split is the split. */
  lemma SplitUnique(tris: seq<Polygon>, T: int, i: int, r: seq<Polygon>)
    requires SplitSafe(tris, T) && IsSplit(tris, T, i, r)
    ensures r == Split(tris, T, i)
  {
    SplitRecords(tris, T, i);
    var s := Split(tris, T, i);
    forall t | 0 <= t < |r|
      ensures r[t] == s[t]
    {
    }
  }

  /** The three triangles around the inserted point: each has i as its first
      vertex, their other vertices are T's three, they name each other across
      the edges that touch i, and the edges of T's outline keep its neighbours. */
  lemma SplitShape(tris: seq<Polygon>, T: int, i: int)
    requires SplitSafe(tris, T)
    ensures var r, n, p := Split(tris, T, i), |tris|, tris[T];
      && Shaped(r[T]) && Shaped(r[n]) && Shaped(r[n + 1])
      && r[T].vertices[0] == i && r[n].vertices[0] == i && r[n + 1].vertices[0] == i
      && multiset{r[T].vertices[1], r[n].vertices[1], r[n + 1].vertices[1]} == multiset(p.vertices)
      && r[T].edges[2] == n && r[n].edges[0] == T
      && r[n].edges[2] == n + 1 && r[n + 1].edges[0] == n
      && r[n + 1].edges[2] == T && r[T].edges[0] == n + 1
      && r[T].edges[1] == p.edges[0] && r[n].edges[1] == p.edges[1] && r[n + 1].edges[1] == p.edges[2]
  {
    SplitRecords(tris, T, i);
    var p := tris[T];
    assert p.vertices == [p.vertices[0], p.vertices[1], p.vertices[2]];
  }

  /** A mesh satisfying the invariant can always be split at any record. */
  lemma MeshInvSplitSafe(tris: seq<Polygon>, np: int, T: int)
    requires MeshInv(tris, np) && 0 <= T < |tris|
    ensures SplitSafe(tris, T)
  {
    assert RecordOk(tris, np, T);
    assert SlotOk(tris, T, 0) && SlotOk(tris, T, 1) && SlotOk(tris, T, 2);
  }

  /** Splitting a record of a valid mesh at a real point that is not one of the
      record's vertices gives a valid mesh: adjacency stays symmetric and in
      range, and the boundary is still the supertriangle. */
  lemma SplitPreservesMesh(tris: seq<Polygon>, np: int, T: int, i: int)
    requires MeshInv(tris, np) && 0 <= T < |tris|
    requires 0 <= i < np && !Synthetic(i, np) && i !in tris[T].vertices
    ensures SplitSafe(tris, T) && MeshInv(Split(tris, T, i), np)
  {
    MeshInvSplitSafe(tris, np, T);
    var r := Split(tris, T, i);
    SplitRecords(tris, T, i);
    forall t | 0 <= t < |r|
      ensures RecordOk(r, np, t) && HullOk(r, np, t)
    {
      SplitRecordOk(tris, np, T, i, r, t);
    }
  }

  /** Every triangle of a split touches a real point, when the list being split was
      the lone supertriangle or already had that property. */
  lemma SplitTouchesReal(tris: seq<Polygon>, np: int, T: int, i: int)
    requires MeshInv(tris, np) && 0 <= T < |tris| && !Synthetic(i, np)
    requires |tris| == 1 || TouchesReal(tris, np)
    ensures SplitSafe(tris, T) && TouchesReal(Split(tris, T, i), np)
  {
    MeshInvSplitSafe(tris, np, T);
    SplitRecords(tris, T, i);
    var r := Split(tris, T, i);
    forall t | 0 <= t < |r|
      ensures HasRealCorner(r[t], np)
    {
      if t < |tris| && t != T {
        assert RecordOk(tris, np, t);
        assert HasRealCorner(tris[t], np);
      }
    }
  }

  /** One record of the split is well formed. */
  lemma SplitRecordOk(tris: seq<Polygon>, np: int, T: int, i: int, r: seq<Polygon>, t: int)
    requires MeshInv(tris, np) && SplitSafe(tris, T) && IsSplit(tris, T, i, r)
    requires 0 <= i < np && !Synthetic(i, np) && i !in tris[T].vertices
    requires 0 <= t < |tris| + 2
    ensures RecordOk(r, np, t) && HullOk(r, np, t)
  {
    SplitRecordBasics(tris, np, T, i, r, t);
    SplitSlotOk(tris, np, T, i, r, t, 0);
    SplitSlotOk(tris, np, T, i, r, t, 1);
    SplitSlotOk(tris, np, T, i, r, t, 2);
  }

  /** The vertices, repeated-neighbour and boundary conditions of one record of the split. */
  lemma SplitRecordBasics(tris: seq<Polygon>, np: int, T: int, i: int, r: seq<Polygon>, t: int)
    requires MeshInv(tris, np) && SplitSafe(tris, T) && IsSplit(tris, T, i, r)
    requires 0 <= i < np && !Synthetic(i, np) && i !in tris[T].vertices
    requires 0 <= t < |tris| + 2
    ensures Shaped(r[t]) && HullOk(r, np, t)
    ensures var q := r[t];
      && 0 <= q.vertices[0] < np && 0 <= q.vertices[1] < np && 0 <= q.vertices[2] < np
      && q.vertices[0] != q.vertices[1] && q.vertices[1] != q.vertices[2] && q.vertices[2] != q.vertices[0]
      && (q.edges[0] >= 0 ==> q.edges[0] != q.edges[1] && q.edges[0] != q.edges[2])
      && (q.edges[1] >= 0 ==> q.edges[1] != q.edges[2])
  {
    if t == T || t == |tris| || t == |tris| + 1 {
      SplitInnerBasics(tris, np, T, i, r, t);
    } else {
      SplitOuterBasics(tris, np, T, i, r, t);
    }
  }

  /** The basic conditions for the three records around the inserted point. */
  lemma SplitInnerBasics(tris: seq<Polygon>, np: int, T: int, i: int, r: seq<Polygon>, t: int)
    requires MeshInv(tris, np) && SplitSafe(tris, T) && IsSplit(tris, T, i, r)
    requires 0 <= i < np && !Synthetic(i, np) && i !in tris[T].vertices
    requires t == T || t == |tris| || t == |tris| + 1
    ensures Shaped(r[t]) && HullOk(r, np, t)
    ensures var q := r[t];
      && 0 <= q.vertices[0] < np && 0 <= q.vertices[1] < np && 0 <= q.vertices[2] < np
      && q.vertices[0] != q.vertices[1] && q.vertices[1] != q.vertices[2] && q.vertices[2] != q.vertices[0]
      && (q.edges[0] >= 0 ==> q.edges[0] != q.edges[1] && q.edges[0] != q.edges[2])
      && (q.edges[1] >= 0 ==> q.edges[1] != q.edges[2])
  {
    assert RecordOk(tris, np, T) && HullOk(tris, np, T);
    assert SlotOk(tris, T, 0) && SlotOk(tris, T, 1) && SlotOk(tris, T, 2);
  }

  /** The basic conditions for a record that was already in the list: its
      vertices are unchanged, and a relinked neighbour entry names a record
      that did not exist before. */
  lemma SplitOuterBasics(tris: seq<Polygon>, np: int, T: int, i: int, r: seq<Polygon>, t: int)
    requires MeshInv(tris, np) && SplitSafe(tris, T) && IsSplit(tris, T, i, r)
    requires 0 <= t < |tris| && t != T
    ensures Shaped(r[t]) && HullOk(r, np, t)
    ensures var q := r[t];
      && 0 <= q.vertices[0] < np && 0 <= q.vertices[1] < np && 0 <= q.vertices[2] < np
      && q.vertices[0] != q.vertices[1] && q.vertices[1] != q.vertices[2] && q.vertices[2] != q.vertices[0]
      && (q.edges[0] >= 0 ==> q.edges[0] != q.edges[1] && q.edges[0] != q.edges[2])
      && (q.edges[1] >= 0 ==> q.edges[1] != q.edges[2])
  {
    assert RecordOk(tris, np, t) && HullOk(tris, np, t);
    assert SlotOk(tris, t, 0) && SlotOk(tris, t, 1) && SlotOk(tris, t, 2);
  }

  /** One neighbour slot of one record of the split is well formed. */
  lemma SplitSlotOk(tris: seq<Polygon>, np: int, T: int, i: int, r: seq<Polygon>, t: int, k: int)
    requires MeshInv(tris, np) && SplitSafe(tris, T) && IsSplit(tris, T, i, r)
    requires 0 <= i < np && !Synthetic(i, np) && i !in tris[T].vertices
    requires 0 <= t < |tris| + 2 && 0 <= k < 3
    ensures Shaped(r[t]) && SlotOk(r, t, k)
  {
    var n, p := |tris|, tris[T];
    if t == T || t == n || t == n + 1 {
      SplitInnerSlotOk(tris, np, T, i, r, t, k);
    } else if t == p.edges[1] || t == p.edges[2] {
      SplitNeighbourSlotOk(tris, np, T, i, r, t, k);
    } else {
      SplitOtherSlotOk(tris, np, T, i, r, t, k);
    }
  }

  /** The slots of the three records around the inserted point. */
  lemma SplitInnerSlotOk(tris: seq<Polygon>, np: int, T: int, i: int, r: seq<Polygon>, t: int, k: int)
    requires MeshInv(tris, np) && SplitSafe(tris, T) && IsSplit(tris, T, i, r)
    requires 0 <= i < np && !Synthetic(i, np) && i !in tris[T].vertices
    requires t == T || t == |tris| || t == |tris| + 1
    requires 0 <= k < 3
    ensures Shaped(r[t]) && SlotOk(r, t, k)
  {
    var n := |tris|;
    if k == 1 {
      SplitOuterSlotOk(tris, np, T, i, r, t);
    } else if t == T {
      assert SlotOf(r[n + 1].edges, T) == 2;
      assert SlotOf(r[n].edges, T) == 0;
    } else if t == n {
      assert SlotOf(r[T].edges, n) == 2;
      assert SlotOf(r[n + 1].edges, n) == 0;
    } else {
      assert SlotOf(r[n].edges, n + 1) == 2;
      assert SlotOf(r[T].edges, n + 1) == 0;
    }
  }

  /** The outer slot of a record around the inserted point keeps the neighbour
      across the edge of the split record it lies on, and that neighbour lists
      it back. */
  lemma SplitOuterSlotOk(tris: seq<Polygon>, np: int, T: int, i: int, r: seq<Polygon>, t: int)
    requires MeshInv(tris, np) && SplitSafe(tris, T) && IsSplit(tris, T, i, r)
    requires t == T || t == |tris| || t == |tris| + 1
    ensures Shaped(r[t]) && SlotOk(r, t, 1)
  {
    var n, p := |tris|, tris[T];
    assert RecordOk(tris, np, T);
    var j := if t == T then 0 else if t == n then 1 else 2;
    assert SlotOk(tris, T, j);
    var u := p.edges[j];
    assert r[t].edges[1] == u;
    assert r[t].vertices[1] == p.vertices[j] && r[t].vertices[2] == p.vertices[Next(j)];
    if u >= 0 {
      assert Mirrors(tris, T, j);
      var m := SlotOf(tris[u].edges, T);
      if j == 0 {
        assert r[u] == tris[u];
      } else {
        assert r[u] == Relink(tris[u], T, t);
        assert RecordOk(tris, np, u);
        assert tris[u].edges[m] == T;
        assert SlotOf(r[u].edges, t) == m;
      }
      assert Mirrors(r, t, 1);
    }
  }

  /** The slots of a former neighbour B or C of the split record. */
  lemma SplitNeighbourSlotOk(tris: seq<Polygon>, np: int, T: int, i: int, r: seq<Polygon>, t: int, k: int)
    requires MeshInv(tris, np) && SplitSafe(tris, T) && IsSplit(tris, T, i, r)
    requires 0 <= i < np && !Synthetic(i, np) && i !in tris[T].vertices
    requires 0 <= t < |tris| && t != T && (t == tris[T].edges[1] || t == tris[T].edges[2])
    requires 0 <= k < 3
    ensures Shaped(r[t]) && SlotOk(r, t, k)
  {
    if k == SlotOf(tris[t].edges, T) {
      SplitRelinkedSlotOk(tris, np, T, i, r, t);
    } else {
      SplitKeptSlotOk(tris, np, T, i, r, t, k);
    }
  }

  /** The slot of B (or C) that named T now names the appended record that took
      over T's edge. */
  lemma SplitRelinkedSlotOk(tris: seq<Polygon>, np: int, T: int, i: int, r: seq<Polygon>, t: int)
    requires MeshInv(tris, np) && SplitSafe(tris, T) && IsSplit(tris, T, i, r)
    requires 0 <= t < |tris| && t != T && (t == tris[T].edges[1] || t == tris[T].edges[2])
    ensures Shaped(r[t]) && SlotOk(r, t, SlotOf(tris[t].edges, T))
  {
    var n, p := |tris|, tris[T];
    var B, C := p.edges[1], p.edges[2];
    var j := if t == B then 1 else 2;
    var w := if t == B then n else n + 1;
    assert r[t] == Relink(tris[t], T, w);
    var s := SlotOf(tris[t].edges, T);
    assert RecordOk(tris, np, T);
    assert SlotOk(tris, T, j);
    assert Mirrors(tris, T, j);
    assert r[t].edges[s] == w;
    assert r[w].edges[1] == t && r[w].edges[0] != t;
    assert SlotOf(r[w].edges, t) == 1;
  }

  /** The slots of B (or C) that did not name T are unchanged and stay mirrored. */
  lemma SplitKeptSlotOk(tris: seq<Polygon>, np: int, T: int, i: int, r: seq<Polygon>, t: int, k: int)
    requires MeshInv(tris, np) && SplitSafe(tris, T) && IsSplit(tris, T, i, r)
    requires 0 <= t < |tris| && t != T && (t == tris[T].edges[1] || t == tris[T].edges[2])
    requires 0 <= k < 3 && k != SlotOf(tris[t].edges, T)
    ensures Shaped(r[t]) && SlotOk(r, t, k)
  {
    var n, p := |tris|, tris[T];
    var w := if t == p.edges[1] then n else n + 1;
    assert r[t] == Relink(tris[t], T, w);
    assert RecordOk(tris, np, t);
    assert SlotOk(tris, t, k);
    SplitKeptMirrors(tris, T, i, r, t, k);
  }

  /** A slot of an old record that the split does not touch, naming a record
      other than T, is still mirrored: the record it names lists it back in
      the same slot, relinking only replaced T. */
  lemma SplitKeptMirrors(tris: seq<Polygon>, T: int, i: int, r: seq<Polygon>, t: int, k: int)
    requires SplitSafe(tris, T) && IsSplit(tris, T, i, r)
    requires 0 <= t < |tris| && t != T && 0 <= k < 3 && Shaped(tris[t]) && Shaped(r[t])
    requires r[t].vertices == tris[t].vertices && r[t].edges[k] == tris[t].edges[k]
    requires tris[t].edges[k] != T && SlotOk(tris, t, k)
    ensures SlotOk(r, t, k)
  {
    var n, p := |tris|, tris[T];
    var B, C := p.edges[1], p.edges[2];
    var u := tris[t].edges[k];
    if u >= 0 {
      assert Mirrors(tris, t, k);
      if u == B || u == C {
        var w := if u == B then n else n + 1;
        assert r[u] == Relink(tris[u], T, w);
        RelinkSlotOf(tris[u], T, w, t);
      } else {
        assert r[u] == tris[u];
      }
    }
  }

  /** The slots of a record that the split leaves as it was. */
  lemma SplitOtherSlotOk(tris: seq<Polygon>, np: int, T: int, i: int, r: seq<Polygon>, t: int, k: int)
    requires MeshInv(tris, np) && SplitSafe(tris, T) && IsSplit(tris, T, i, r)
    requires 0 <= i < np && !Synthetic(i, np) && i !in tris[T].vertices
    requires 0 <= t < |tris| && t != T && t != tris[T].edges[1] && t != tris[T].edges[2]
    requires 0 <= k < 3
    ensures Shaped(r[t]) && SlotOk(r, t, k)
  {
    assert r[t] == tris[t];
    assert RecordOk(tris, np, t);
    var u := tris[t].edges[k];
    if u == T {
      SplitFirstNeighbourOk(tris, np, T, i, r, t, k);
    } else {
      assert SlotOk(tris, t, k);
      SplitKeptMirrors(tris, T, i, r, t, k);
    }
  }

  /** A record the split leaves alone that lists T is T's first neighbour A:
      T lists it back, and after the split T lists it in its middle slot,
      across the same edge. */
  lemma SplitFirstNeighbourOk(tris: seq<Polygon>, np: int, T: int, i: int, r: seq<Polygon>, t: int, k: int)
    requires MeshInv(tris, np) && SplitSafe(tris, T) && IsSplit(tris, T, i, r)
    requires 0 <= t < |tris| && t != T && t != tris[T].edges[1] && t != tris[T].edges[2]
    requires 0 <= k < 3 && Shaped(tris[t]) && tris[t].edges[k] == T && r[t] == tris[t]
    ensures SlotOk(r, t, k)
  {
    assert RecordOk(tris, np, t) && SlotOk(tris, t, k) && Mirrors(tris, t, k);
    var m := SlotOf(tris[T].edges, t);
    assert RecordOk(tris, np, T);
    assert SlotOk(tris, T, m);
    assert t == tris[T].edges[0];
    assert SlotOf(r[T].edges, t) == 1;
    assert Mirrors(tris, T, 0);
  }
}
