/** The legalization half of one insertion step: the Delaunay test on the
    quadrilateral formed by a new triangle L (whose first vertex is the inserted
    point i) and the neighbour R across L's middle edge, and the edge flip that
    replaces the diagonal of that quadrilateral when the test fails. */
module Legalization {
  import opened Geometry
  import opened Mesh

  /** The swap test on the quadrilateral P, v1, v3, v2: v1 and v2 are the ends of
      the shared edge, P the inserted point and v3 the vertex of the neighbour
      opposite it. The edge is swapped when the angles at v3 and P sum to more
      than a straight angle. */
  predicate DelaunayCondition(P: Node, v1: Node, v2: Node, v3: Node) {
    AngleTest(Dot(Sub(v1, v3), Sub(v2, v3)), Dot(Sub(v2, P), Sub(v1, P)),
              Cross(Sub(v1, v3), Sub(v2, v3)), Cross(Sub(v2, P), Sub(v1, P)))
  }

  /** The decision on the measures of the two angles: cosa and cosb are
      proportional to their cosines, sina and sinb to their sines. Both acute:
      keep; both obtuse: swap; otherwise the sign of sin(a + b) decides. */
  predicate AngleTest(cosa: real, cosb: real, sina: real, sinb: real) {
    if cosa >= 0.0 && cosb >= 0.0 then false
    else if cosa < 0.0 && cosb < 0.0 then true
    else sina * cosb + sinb * cosa < 0.0
  }

  /** Two acute (or right) angles never cause a swap; two obtuse angles always do. */
  lemma DelaunaySignCases(P: Node, v1: Node, v2: Node, v3: Node)
    ensures Dot(Sub(v1, v3), Sub(v2, v3)) >= 0.0 && Dot(Sub(v2, P), Sub(v1, P)) >= 0.0
            ==> !DelaunayCondition(P, v1, v2, v3)
    ensures Dot(Sub(v1, v3), Sub(v2, v3)) < 0.0 && Dot(Sub(v2, P), Sub(v1, P)) < 0.0
            ==> DelaunayCondition(P, v1, v2, v3)
  {
  }

  /** The test gives the same answer seen from either triangle of the
      quadrilateral: exchanging the inserted point with the opposite vertex and
      walking the shared edge the other way does not change the verdict. */
  lemma DelaunaySymmetric(P: Node, v1: Node, v2: Node, v3: Node)
    ensures DelaunayCondition(P, v1, v2, v3) == DelaunayCondition(v3, v2, v1, P)
  {
    AngleTestSymmetric(Dot(Sub(v1, v3), Sub(v2, v3)), Dot(Sub(v2, P), Sub(v1, P)),
                       Cross(Sub(v1, v3), Sub(v2, v3)), Cross(Sub(v2, P), Sub(v1, P)));
  }

  lemma AngleTestSymmetric(cosa: real, cosb: real, sina: real, sinb: real)
    ensures AngleTest(cosa, cosb, sina, sinb) == AngleTest(cosb, cosa, sinb, sina)
  {
    assert sina * cosb + sinb * cosa == sinb * cosa + sina * cosb;
  }

  /** The point s * a. */
  function Scale(a: Node, s: real): Node {
    Node(s * a.x, s * a.y)
  }

  /** The image of a under the normalization map (a - o) / d, with d > 0. */
  function Normalized(a: Node, o: Node, d: real): (r: Node)
    requires d > 0.0
    ensures Add(Scale(r, d), o) == a
  {
    Scale(Sub(a, o), 1.0 / d)
  }

  lemma ScaleProducts(a: Node, b: Node, s: real)
    ensures Dot(Scale(a, s), Scale(b, s)) == (s * s) * Dot(a, b)
    ensures Cross(Scale(a, s), Scale(b, s)) == (s * s) * Cross(a, b)
  {
    calc {
      Dot(Scale(a, s), Scale(b, s));
      (s * a.x) * (s * b.x) + (s * a.y) * (s * b.y);
      (s * s) * (a.x * b.x + a.y * b.y);
    }
    calc {
      Cross(Scale(a, s), Scale(b, s));
      (s * a.x) * (s * b.y) - (s * a.y) * (s * b.x);
      (s * s) * (a.x * b.y - a.y * b.x);
    }
  }
  lemma ScaleSub(a: Node, b: Node, s: real)
    ensures Sub(Scale(a, s), Scale(b, s)) == Scale(Sub(a, b), s)
  {
    assert s * a.x - s * b.x == s * (a.x - b.x);
    assert s * a.y - s * b.y == s * (a.y - b.y);
  }
  lemma PositiveFactor(k: real, x: real)
    requires k > 0.0
    ensures (k * x < 0.0) == (x < 0.0) && (k * x >= 0.0) == (x >= 0.0)
  {
    if x < 0.0 {
      assert k * x < 0.0;
    } else {
      assert k * x >= 0.0;
    }
  }
  lemma SquareFactor(s: real, x: real)
    requires s > 0.0
    ensures ((s * s) * x < 0.0) == (x < 0.0) && ((s * s) * x >= 0.0) == (x >= 0.0)
  {
    PositiveFactor(s, x);
    PositiveFactor(s, s * x);
    assert (s * s) * x == s * (s * x);
  }
  lemma AngleTestScaled(s: real, cosa: real, cosb: real, sina: real, sinb: real)
    requires s > 0.0
    ensures AngleTest((s * s) * cosa, (s * s) * cosb, (s * s) * sina, (s * s) * sinb)
            == AngleTest(cosa, cosb, sina, sinb)
  {
    SquareFactor(s, cosa);
    SquareFactor(s, cosb);
    var X := sina * cosb + sinb * cosa;
    assert ((s * s) * sina) * ((s * s) * cosb) + ((s * s) * sinb) * ((s * s) * cosa)
           == (s * s) * ((s * s) * X);
    SquareFactor(s, X);
    SquareFactor(s, (s * s) * X);
  }
  lemma DelaunayScaleInvariant(P: Node, v1: Node, v2: Node, v3: Node, s: real)
    requires s > 0.0
    ensures DelaunayCondition(Scale(P, s), Scale(v1, s), Scale(v2, s), Scale(v3, s))
            == DelaunayCondition(P, v1, v2, v3)
  {
    AngleTestScaled(s, Dot(Sub(v1, v3), Sub(v2, v3)), Dot(Sub(v2, P), Sub(v1, P)),
                    Cross(Sub(v1, v3), Sub(v2, v3)), Cross(Sub(v2, P), Sub(v1, P)));
    ScaleSub(v1, v3, s); ScaleSub(v2, v3, s); ScaleSub(v2, P, s); ScaleSub(v1, P, s);
    ScaleProducts(Sub(v1, v3), Sub(v2, v3), s);
    ScaleProducts(Sub(v2, P), Sub(v1, P), s);
  }

  /** Translating all four points does not change the verdict. */
  lemma DelaunayTranslateInvariant(P: Node, v1: Node, v2: Node, v3: Node, t: Node)
    ensures DelaunayCondition(Add(P, t), Add(v1, t), Add(v2, t), Add(v3, t))
            == DelaunayCondition(P, v1, v2, v3)
  {
    DifferenceTranslationInvariant(v1, v3, t);
    DifferenceTranslationInvariant(v2, v3, t);
    DifferenceTranslationInvariant(v2, P, t);
    DifferenceTranslationInvariant(v1, P, t);
  }

  /** The test gives the same verdict before and after the points are mapped to
      the unit square, so testing normalized coordinates decides the same
      swaps as testing the input coordinates would. */
  lemma DelaunayNormalizationInvariant(P: Node, v1: Node, v2: Node, v3: Node, o: Node, d: real)
    requires d > 0.0
    ensures DelaunayCondition(Normalized(P, o, d), Normalized(v1, o, d), Normalized(v2, o, d), Normalized(v3, o, d))
            == DelaunayCondition(P, v1, v2, v3)
  {
    var neg := Node(-o.x, -o.y);
    assert forall a :: Sub(a, o) == Add(a, neg);
    DelaunayTranslateInvariant(P, v1, v2, v3, neg);
    DelaunayScaleInvariant(Sub(P, o), Sub(v1, o), Sub(v2, o), Sub(v3, o), 1.0 / d);
  }

  /** Record L has a neighbour R across its middle edge, and R lists L: the
      setting in which the vertex of R opposite L is defined. */
  predicate HasOpposite(tris: seq<Polygon>, L: int) {
    0 <= L < |tris| && Shaped(tris[L])
    && var R := tris[L].edges[1];
    0 <= R < |tris| && Shaped(tris[R]) && SlotOf(tris[R].edges, L) >= 0
  }

  /** The vertex of L's middle neighbour R that is not on the edge they share. */
  function Opposite(tris: seq<Polygon>, L: int): int
    requires HasOpposite(tris, L)
  {
    var R := tris[L].edges[1];
    tris[R].vertices[Prev(SlotOf(tris[R].edges, L))]
  }

  /** What the flip of L reads and writes is there: L and R = L.edges[1] list
      each other, the outer neighbours A (of R, across a-opp) and C (of L,
      across b-i) list R and L, and the four records are distinct. */
  predicate FlipSafe(tris: seq<Polygon>, L: int) {
    HasOpposite(tris, L)
    && var p, R := tris[L], tris[L].edges[1];
    var q := tris[R];
    var m := SlotOf(q.edges, L);
    var A, D, C := q.edges[Next(m)], q.edges[Prev(m)], p.edges[2];
    && R != L && p.edges[0] != R
    && (A >= 0 ==> A < |tris| && A != L && A != R && A != C && Shaped(tris[A]) && SlotOf(tris[A].edges, R) >= 0)
    && (C >= 0 ==> C < |tris| && C != L && C != R && Shaped(tris[C]) && SlotOf(tris[C].edges, L) >= 0)
  }

  /** The triangle list after the diagonal a-b of the quadrilateral
      L = (i, a, b), R = (b, a, opp) (up to rotation) is replaced by i-opp:
      L becomes (i, a, opp) with neighbours (E, A, R), R becomes (i, opp, b)
      with neighbours (L, D, C), A is relinked from R to L and C from L to R. */
  function Flip(tris: seq<Polygon>, L: int, i: int): (r: seq<Polygon>)
    requires FlipSafe(tris, L)
    ensures |r| == |tris|
  {
    var p, R := tris[L], tris[L].edges[1];
    var q := tris[R];
    var m := SlotOf(q.edges, L);
    var A, D, C := q.edges[Next(m)], q.edges[Prev(m)], p.edges[2];
    var withA := if A >= 0 then tris[A := Relink(tris[A], R, L)] else tris;
    var withC := if C >= 0 then withA[C := Relink(tris[C], L, R)] else withA;
    withC[R := Polygon([i, q.vertices[Prev(m)], q.vertices[m]], [L, D, C])]
         [L := Polygon([p.vertices[0], p.vertices[1], q.vertices[Prev(m)]], [p.edges[0], A, R])]
  }

  /** r is the list the flip of L produces, record by record. */
  ghost predicate IsFlip(tris: seq<Polygon>, L: int, i: int, r: seq<Polygon>)
    requires FlipSafe(tris, L)
  {
    var p, R := tris[L], tris[L].edges[1];
    var q := tris[R];
    var m := SlotOf(q.edges, L);
    var A, D, C := q.edges[Next(m)], q.edges[Prev(m)], p.edges[2];
    && |r| == |tris|
    && r[L] == Polygon([p.vertices[0], p.vertices[1], q.vertices[Prev(m)]], [p.edges[0], A, R])
    && r[R] == Polygon([i, q.vertices[Prev(m)], q.vertices[m]], [L, D, C])
    && (A >= 0 ==> r[A] == Relink(tris[A], R, L))
    && (C >= 0 ==> r[C] == Relink(tris[C], L, R))
    && (forall t | 0 <= t < |tris| && t != L && t != R && t != A && t != C :: r[t] == tris[t])
  }

  lemma FlipRecords(tris: seq<Polygon>, L: int, i: int)
    requires FlipSafe(tris, L)
    ensures IsFlip(tris, L, i, Flip(tris, L, i))
  {
  }

  /** The flip is determined record by record. */
  lemma FlipUnique(tris: seq<Polygon>, L: int, i: int, r: seq<Polygon>)
    requires FlipSafe(tris, L) && IsFlip(tris, L, i, r)
    ensures r == Flip(tris, L, i)
  {
    FlipRecords(tris, L, i);
    var s := Flip(tris, L, i);
    forall t | 0 <= t < |r|
      ensures r[t] == s[t]
    {
    }
  }

  /** A flip is taken on a valid mesh in which every triangle touches a real
      point, for a record L whose first vertex is the real point i just
      inserted and whose middle edge has a neighbour R; the vertex opp of R
      opposite L is not i and does not yet share a triangle with i. */
  ghost predicate FlipReady(tris: seq<Polygon>, np: int, L: int, i: int) {
    MeshInv(tris, np) && TouchesReal(tris, np)
    && 0 <= i < np && !Synthetic(i, np)
    && 0 <= L < |tris| && Shaped(tris[L]) && tris[L].vertices[0] == i && tris[L].edges[1] >= 0
    && HasOpposite(tris, L) && Opposite(tris, L) != i && !Joined(tris, i, Opposite(tris, L))
  }

  /** The facts about the quadrilateral that every part of the flip proof uses:
      the shared edge is a-b walked both ways, the six records around it are
      distinct where they must be, and A and C do not yet list L and R. */
  ghost predicate QuadFacts(tris: seq<Polygon>, np: int, L: int, i: int)
    requires FlipSafe(tris, L)
  {
    var p, R := tris[L], tris[L].edges[1];
    var q := tris[R];
    var m := SlotOf(q.edges, L);
    var A, D, C, E := q.edges[Next(m)], q.edges[Prev(m)], p.edges[2], p.edges[0];
    var a, b, opp := p.vertices[1], p.vertices[2], q.vertices[Prev(m)];
    && R != L && q.vertices[m] == b && q.vertices[Next(m)] == a
    && opp != a && opp != b && opp != i && a != i && b != i
    && 0 <= opp < np && 0 <= a < np && 0 <= b < np
    && 0 <= E < |tris| && 0 <= C < |tris| && -1 <= A < |tris| && -1 <= D < |tris|
    && E != L && E != R && E != C && E != A && E != D
    && C != L && C != R && C != A && C != D
    && A != L && A != R && D != L && D != R && (A >= 0 ==> A != D)
    && (A >= 0 || D >= 0)
    && (A < 0 ==> Synthetic(a, np) && Synthetic(opp, np))
    && (D < 0 ==> Synthetic(opp, np) && Synthetic(b, np))
    && (A >= 0 ==> Shaped(tris[A]) && SlotOf(tris[A].edges, L) == -1)
    && Shaped(tris[C]) && SlotOf(tris[C].edges, R) == -1
  }

  /** A flip that is ready has a well-formed quadrilateral. */
  lemma FlipFacts(tris: seq<Polygon>, np: int, L: int, i: int)
    requires FlipReady(tris, np, L, i)
    ensures FlipSafe(tris, L) && QuadFacts(tris, np, L, i)
  {
    FlipLeft(tris, np, L, i);
    FlipRight(tris, np, L, i);
    FlipApart(tris, np, L, i);
    var p, R := tris[L], tris[L].edges[1];
    var q := tris[R];
    var m := SlotOf(q.edges, L);
    var A, C := q.edges[Next(m)], p.edges[2];
    if A >= 0 {
      AbsentSlot(tris, np, A, L);
    }
    AbsentSlot(tris, np, C, R);
  }

  /** What record L alone says: its outer neighbours E and C exist, because the
      edges i-a and b-i have the real endpoint i, and they hold i. */
  lemma FlipLeft(tris: seq<Polygon>, np: int, L: int, i: int)
    requires FlipReady(tris, np, L, i)
    ensures var p, R := tris[L], tris[L].edges[1];
      var C, E := p.edges[2], p.edges[0];
      var a, b := p.vertices[1], p.vertices[2];
      && 0 <= R < |tris| && R != L && a != i && b != i && a != b && 0 <= a < np && 0 <= b < np
      && 0 <= E < |tris| && 0 <= C < |tris|
      && E != L && E != R && E != C && C != L && C != R
      && Shaped(tris[E]) && i in tris[E].vertices
      && Shaped(tris[C]) && i in tris[C].vertices && SlotOf(tris[C].edges, L) >= 0
  {
    var p := tris[L];
    assert RecordOk(tris, np, L) && HullOk(tris, np, L);
    assert SlotOk(tris, L, 0) && SlotOk(tris, L, 2);
    assert Mirrors(tris, L, 0) && Mirrors(tris, L, 2);
  }

  /** What record R says: it walks the shared edge as b then a, its third
      vertex is opp, and its outer neighbours A and D hold opp. */
  lemma FlipRight(tris: seq<Polygon>, np: int, L: int, i: int)
    requires FlipReady(tris, np, L, i)
    ensures var p, R := tris[L], tris[L].edges[1];
      var q := tris[R];
      var m := SlotOf(q.edges, L);
      var A, D := q.edges[Next(m)], q.edges[Prev(m)];
      var a, b, opp := p.vertices[1], p.vertices[2], q.vertices[Prev(m)];
      && R != L && q.vertices[m] == b && q.vertices[Next(m)] == a
      && opp != a && opp != b && 0 <= opp < np
      && -1 <= A < |tris| && -1 <= D < |tris|
      && A != L && A != R && D != L && D != R && (A >= 0 ==> A != D)
      && (A >= 0 || D >= 0)
      && (A < 0 ==> Synthetic(a, np) && Synthetic(opp, np))
      && (D < 0 ==> Synthetic(opp, np) && Synthetic(b, np))
      && (A >= 0 ==> Shaped(tris[A]) && opp in tris[A].vertices && SlotOf(tris[A].edges, R) >= 0)
      && (D >= 0 ==> Shaped(tris[D]) && opp in tris[D].vertices)
  {
    FlipRightEdge(tris, np, L, i);
    FlipRightOuter(tris, np, L, i);
  }

  /** R walks the shared edge a-b the other way, and its third vertex opp is
      a point other than a and b. */
  lemma FlipRightEdge(tris: seq<Polygon>, np: int, L: int, i: int)
    requires FlipReady(tris, np, L, i)
    ensures var p, R := tris[L], tris[L].edges[1];
      var q := tris[R];
      var m := SlotOf(q.edges, L);
      var a, b, opp := p.vertices[1], p.vertices[2], q.vertices[Prev(m)];
      && R != L && RecordOk(tris, np, R) && HullOk(tris, np, R)
      && q.vertices[m] == b && q.vertices[Next(m)] == a
      && opp != a && opp != b && 0 <= opp < np
  {
    var R := tris[L].edges[1];
    assert RecordOk(tris, np, L);
    assert SlotOk(tris, L, 1);
    assert Mirrors(tris, L, 1);
    assert RecordOk(tris, np, R) && HullOk(tris, np, R);
  }

  /** The outer neighbours A and D of R, across a-opp and opp-b. */
  lemma FlipRightOuter(tris: seq<Polygon>, np: int, L: int, i: int)
    requires FlipReady(tris, np, L, i)
    ensures var p, R := tris[L], tris[L].edges[1];
      var q := tris[R];
      var m := SlotOf(q.edges, L);
      var A, D := q.edges[Next(m)], q.edges[Prev(m)];
      var a, b, opp := p.vertices[1], p.vertices[2], q.vertices[Prev(m)];
      && -1 <= A < |tris| && -1 <= D < |tris|
      && A != L && A != R && D != L && D != R && (A >= 0 ==> A != D)
      && (A >= 0 || D >= 0)
      && (A < 0 ==> Synthetic(a, np) && Synthetic(opp, np))
      && (D < 0 ==> Synthetic(opp, np) && Synthetic(b, np))
      && (A >= 0 ==> Shaped(tris[A]) && opp in tris[A].vertices && SlotOf(tris[A].edges, R) >= 0)
      && (D >= 0 ==> Shaped(tris[D]) && opp in tris[D].vertices)
  {
    FlipRightEdge(tris, np, L, i);
    var R := tris[L].edges[1];
    var q := tris[R];
    var m := SlotOf(q.edges, L);
    var A, D := q.edges[Next(m)], q.edges[Prev(m)];
    assert SlotOk(tris, R, Next(m)) && SlotOk(tris, R, Prev(m));
    assert HasRealCorner(tris[R], np);
    if A >= 0 {
      assert Mirrors(tris, R, Next(m));
    }
    if D >= 0 {
      assert Mirrors(tris, R, Prev(m));
    }
  }

  /** Records holding both i and opp would join them, so the neighbours E, C of
      L along i and A, D of R along opp are four different records. */
  lemma FlipApart(tris: seq<Polygon>, np: int, L: int, i: int)
    requires FlipReady(tris, np, L, i)
    ensures var p, R := tris[L], tris[L].edges[1];
      var q := tris[R];
      var m := SlotOf(q.edges, L);
      var A, D, C, E := q.edges[Next(m)], q.edges[Prev(m)], p.edges[2], p.edges[0];
      E != A && E != D && C != A && C != D
  {
    FlipLeft(tris, np, L, i);
    FlipRight(tris, np, L, i);
    var p, R := tris[L], tris[L].edges[1];
    var m := SlotOf(tris[R].edges, L);
    var opp := tris[R].vertices[Prev(m)];
    assert !HasBoth(tris[p.edges[0]], i, opp) && !HasBoth(tris[p.edges[2]], i, opp);
  }

  /** A record lists t only if t lists it back, in a linked mesh. */
  lemma ListsBack(tris: seq<Polygon>, np: int, u: int, t: int)
    requires MeshInv(tris, np) && 0 <= u < |tris| && 0 <= t < |tris|
    requires Shaped(tris[u]) && SlotOf(tris[u].edges, t) >= 0
    ensures Shaped(tris[t]) && SlotOf(tris[t].edges, u) >= 0
  {
    var s := SlotOf(tris[u].edges, t);
    assert RecordOk(tris, np, u);
    assert SlotOk(tris, u, s);
  }

  /** Which records can list L and R before the flip, in a mesh ready to flip. */
  lemma AbsentSlot(tris: seq<Polygon>, np: int, u: int, t: int)
    requires MeshInv(tris, np) && 0 <= u < |tris| && 0 <= t < |tris|
    requires Shaped(tris[u]) && Shaped(tris[t])
    requires u !in tris[t].edges
    ensures SlotOf(tris[u].edges, t) == -1
  {
    if SlotOf(tris[u].edges, t) >= 0 {
      ListsBack(tris, np, u, t);
      assert false;
    }
  }

  /** Flipping the diagonal of a valid mesh gives a valid mesh: adjacency stays
      symmetric and in range, the boundary is still the supertriangle, and every
      triangle still touches a real point. */
  lemma FlipPreservesMesh(tris: seq<Polygon>, np: int, L: int, i: int)
    requires FlipReady(tris, np, L, i)
    ensures FlipSafe(tris, L) && MeshInv(Flip(tris, L, i), np) && TouchesReal(Flip(tris, L, i), np)
  {
    FlipFacts(tris, np, L, i);
    FlipRecords(tris, L, i);
    var r := Flip(tris, L, i);
    forall t | 0 <= t < |r|
      ensures RecordOk(r, np, t) && HullOk(r, np, t)
    {
      FlipRecordOk(tris, np, L, i, r, t);
    }
    FlipTouchesReal(tris, np, L, i, r);
  }

  lemma FlipTouchesReal(tris: seq<Polygon>, np: int, L: int, i: int, r: seq<Polygon>)
    requires FlipReady(tris, np, L, i) && FlipSafe(tris, L) && IsFlip(tris, L, i, r)
    ensures TouchesReal(r, np)
  {
    FlipFacts(tris, np, L, i);
    forall t | 0 <= t < |r|
      ensures HasRealCorner(r[t], np)
    {
      FlipRecordBasics(tris, np, L, i, r, t);
      if t != L && t != tris[L].edges[1] {
        FlipKeepsVertices(tris, np, L, i, r, t);
        assert HasRealCorner(tris[t], np);
      }
    }
  }

  /** The records other than L and R keep their vertices, and a middle neighbour
      entry that was set stays set. */
  lemma FlipKeepsVertices(tris: seq<Polygon>, np: int, L: int, i: int, r: seq<Polygon>, t: int)
    requires FlipReady(tris, np, L, i) && FlipSafe(tris, L) && IsFlip(tris, L, i, r)
    requires 0 <= t < |tris| && t != L && t != tris[L].edges[1]
    ensures Shaped(tris[t]) && Shaped(r[t]) && r[t].vertices == tris[t].vertices
    ensures tris[t].edges[1] >= 0 ==> r[t].edges[1] >= 0
  {
    FlipFacts(tris, np, L, i);
    assert RecordOk(tris, np, t);
  }

  /** The flip keeps the four corners of the quadrilateral and trades its
      diagonal a-b for i-opp: L becomes (i, a, opp) and R starts at i, and the
      two records name each other across the new diagonal. */
  lemma FlipShape(tris: seq<Polygon>, np: int, L: int, i: int)
    requires FlipReady(tris, np, L, i)
    ensures FlipSafe(tris, L)
    ensures var r, R, opp := Flip(tris, L, i), tris[L].edges[1], Opposite(tris, L);
      && r[L].vertices == [i, tris[L].vertices[1], opp]
      && r[R].vertices[0] == i && r[R].vertices[1] == opp
      && r[L].edges[2] == R && r[R].edges[0] == L
      && {r[L].vertices[0], r[L].vertices[1], r[L].vertices[2], r[R].vertices[2]}
         == {tris[L].vertices[0], tris[L].vertices[1], tris[L].vertices[2], opp}
      && opp in tris[R].vertices && i !in tris[R].vertices
      && tris[L].vertices[1] in tris[R].vertices && tris[L].vertices[2] in tris[R].vertices
  {
    FlipFacts(tris, np, L, i);
    FlipRecords(tris, L, i);
  }

  /** One record of the flip is well formed. */
  lemma FlipRecordOk(tris: seq<Polygon>, np: int, L: int, i: int, r: seq<Polygon>, t: int)
    requires FlipReady(tris, np, L, i) && FlipSafe(tris, L) && IsFlip(tris, L, i, r)
    requires 0 <= t < |tris|
    ensures RecordOk(r, np, t) && HullOk(r, np, t)
  {
    FlipRecordBasics(tris, np, L, i, r, t);
    FlipSlotOk(tris, np, L, i, r, t, 0);
    FlipSlotOk(tris, np, L, i, r, t, 1);
    FlipSlotOk(tris, np, L, i, r, t, 2);
  }

  /** The vertices, repeated-neighbour and boundary conditions of one record of the flip. */
  lemma FlipRecordBasics(tris: seq<Polygon>, np: int, L: int, i: int, r: seq<Polygon>, t: int)
    requires FlipReady(tris, np, L, i) && FlipSafe(tris, L) && IsFlip(tris, L, i, r)
    requires 0 <= t < |tris|
    ensures Shaped(r[t]) && HullOk(r, np, t)
    ensures var q := r[t];
      && 0 <= q.vertices[0] < np && 0 <= q.vertices[1] < np && 0 <= q.vertices[2] < np
      && q.vertices[0] != q.vertices[1] && q.vertices[1] != q.vertices[2] && q.vertices[2] != q.vertices[0]
      && (q.edges[0] >= 0 ==> q.edges[0] != q.edges[1] && q.edges[0] != q.edges[2])
      && (q.edges[1] >= 0 ==> q.edges[1] != q.edges[2])
    ensures (t == L || t == tris[L].edges[1]) ==> i in r[t].vertices
  {
    var R := tris[L].edges[1];
    var m := SlotOf(tris[R].edges, L);
    var A, C := tris[R].edges[Next(m)], tris[L].edges[2];
    if t == L || t == R {
      FlipPairBasics(tris, np, L, i, r);
    } else if t == A || t == C {
      FlipOuterBasics(tris, np, L, i, r, t);
    } else {
      assert r[t] == tris[t];
      assert RecordOk(tris, np, t) && HullOk(tris, np, t);
    }
  }

  /** The relinked outer neighbours A and C stay well formed. */
  lemma FlipOuterBasics(tris: seq<Polygon>, np: int, L: int, i: int, r: seq<Polygon>, t: int)
    requires FlipReady(tris, np, L, i) && FlipSafe(tris, L) && IsFlip(tris, L, i, r)
    requires var R := tris[L].edges[1];
      var m := SlotOf(tris[R].edges, L);
      0 <= t < |tris| && t != L && t != R && (t == tris[R].edges[Next(m)] || t == tris[L].edges[2])
    ensures Shaped(r[t]) && HullOk(r, np, t)
    ensures var q := r[t];
      && 0 <= q.vertices[0] < np && 0 <= q.vertices[1] < np && 0 <= q.vertices[2] < np
      && q.vertices[0] != q.vertices[1] && q.vertices[1] != q.vertices[2] && q.vertices[2] != q.vertices[0]
      && (q.edges[0] >= 0 ==> q.edges[0] != q.edges[1] && q.edges[0] != q.edges[2])
      && (q.edges[1] >= 0 ==> q.edges[1] != q.edges[2])
  {
    FlipFacts(tris, np, L, i);
    var R := tris[L].edges[1];
    var m := SlotOf(tris[R].edges, L);
    assert RecordOk(tris, np, t) && HullOk(tris, np, t);
    if t == tris[R].edges[Next(m)] {
      RelinkKeepsRecord(tris, np, t, R, L);
    } else {
      RelinkKeepsRecord(tris, np, t, L, R);
    }
  }

  /** The new L = (i, a, opp) and R = (i, opp, b) have distinct vertices,
      distinct neighbours, and boundary edges only between synthetic points. */
  lemma FlipPairBasics(tris: seq<Polygon>, np: int, L: int, i: int, r: seq<Polygon>)
    requires FlipReady(tris, np, L, i) && FlipSafe(tris, L) && IsFlip(tris, L, i, r)
    ensures forall t | t == L || t == tris[L].edges[1] ::
      && 0 <= t < |r| && Shaped(r[t]) && HullOk(r, np, t) && i in r[t].vertices
      && 0 <= r[t].vertices[0] < np && 0 <= r[t].vertices[1] < np && 0 <= r[t].vertices[2] < np
      && r[t].vertices[0] != r[t].vertices[1] && r[t].vertices[1] != r[t].vertices[2]
      && r[t].vertices[2] != r[t].vertices[0]
      && (r[t].edges[0] >= 0 ==> r[t].edges[0] != r[t].edges[1] && r[t].edges[0] != r[t].edges[2])
      && (r[t].edges[1] >= 0 ==> r[t].edges[1] != r[t].edges[2])
  {
    FlipFacts(tris, np, L, i);
  }

  /** Relinking a record's entry K to an index V it did not list keeps its
      vertices, its distinct neighbours and its boundary edges. */
  lemma RelinkKeepsRecord(tris: seq<Polygon>, np: int, t: int, K: int, V: int)
    requires 0 <= t < |tris| && RecordOk(tris, np, t) && HullOk(tris, np, t)
    requires SlotOf(tris[t].edges, K) >= 0 && SlotOf(tris[t].edges, V) == -1 && K >= 0 && V >= 0
    ensures var q := Relink(tris[t], K, V);
      && Shaped(q) && q.vertices == tris[t].vertices
      && (q.edges[0] >= 0 ==> q.edges[0] != q.edges[1] && q.edges[0] != q.edges[2])
      && (q.edges[1] >= 0 ==> q.edges[1] != q.edges[2])
      && (q.edges[0] < 0 ==> Synthetic(q.vertices[0], np) && Synthetic(q.vertices[1], np))
      && (q.edges[1] < 0 ==> Synthetic(q.vertices[1], np) && Synthetic(q.vertices[2], np))
      && (q.edges[2] < 0 ==> Synthetic(q.vertices[2], np) && Synthetic(q.vertices[0], np))
  {
  }

  /** One neighbour slot of one record of the flip is well formed. */
  lemma FlipSlotOk(tris: seq<Polygon>, np: int, L: int, i: int, r: seq<Polygon>, t: int, k: int)
    requires FlipReady(tris, np, L, i) && FlipSafe(tris, L) && IsFlip(tris, L, i, r)
    requires 0 <= t < |tris| && 0 <= k < 3
    ensures Shaped(r[t]) && SlotOk(r, t, k)
  {
    var R := tris[L].edges[1];
    var m := SlotOf(tris[R].edges, L);
    var A, C := tris[R].edges[Next(m)], tris[L].edges[2];
    if t == L {
      FlipLeftSlotOk(tris, np, L, i, r, k);
    } else if t == R {
      FlipRightSlotOk(tris, np, L, i, r, k);
    } else if t == A {
      FlipOuterSlotOk(tris, np, L, i, r, A, R, L, k);
    } else if t == C {
      FlipOuterSlotOk(tris, np, L, i, r, C, L, R, k);
    } else {
      FlipOtherSlotOk(tris, np, L, i, r, t, k);
    }
  }

  /** The slots of the new L = (i, a, opp) with neighbours (E, A, R). */
  lemma FlipLeftSlotOk(tris: seq<Polygon>, np: int, L: int, i: int, r: seq<Polygon>, k: int)
    requires FlipReady(tris, np, L, i) && FlipSafe(tris, L) && IsFlip(tris, L, i, r)
    requires 0 <= k < 3
    ensures Shaped(r[L]) && SlotOk(r, L, k)
  {
    FlipFacts(tris, np, L, i);
    var R := tris[L].edges[1];
    var m := SlotOf(tris[R].edges, L);
    var A, E := tris[R].edges[Next(m)], tris[L].edges[0];
    assert RecordOk(tris, np, L);
    if k == 0 {
      assert SlotOk(tris, L, 0) && Mirrors(tris, L, 0);
      assert r[E] == tris[E];
    } else if k == 1 {
      if A >= 0 {
        assert RecordOk(tris, np, R);
        assert SlotOk(tris, R, Next(m)) && Mirrors(tris, R, Next(m));
        RelinkSlotOfNew(tris[A], R, L);
        assert SlotOf(r[A].edges, L) == SlotOf(tris[A].edges, R);
      }
    } else {
      assert SlotOf(r[R].edges, L) == 0;
    }
  }

  /** The slots of the new R = (i, opp, b) with neighbours (L, D, C). */
  lemma FlipRightSlotOk(tris: seq<Polygon>, np: int, L: int, i: int, r: seq<Polygon>, k: int)
    requires FlipReady(tris, np, L, i) && FlipSafe(tris, L) && IsFlip(tris, L, i, r)
    requires 0 <= k < 3
    ensures Shaped(r[tris[L].edges[1]]) && SlotOk(r, tris[L].edges[1], k)
  {
    if k == 0 {
      FlipFacts(tris, np, L, i);
      assert SlotOf(r[L].edges, tris[L].edges[1]) == 2;
    } else if k == 1 {
      FlipRightMiddleOk(tris, np, L, i, r);
    } else {
      FlipRightLastOk(tris, np, L, i, r);
    }
  }

  /** R's new middle neighbour D, across opp-b, is the one it had there before. */
  lemma FlipRightMiddleOk(tris: seq<Polygon>, np: int, L: int, i: int, r: seq<Polygon>)
    requires FlipReady(tris, np, L, i) && FlipSafe(tris, L) && IsFlip(tris, L, i, r)
    ensures Shaped(r[tris[L].edges[1]]) && SlotOk(r, tris[L].edges[1], 1)
  {
    FlipFacts(tris, np, L, i);
    var R := tris[L].edges[1];
    var m := SlotOf(tris[R].edges, L);
    var D := tris[R].edges[Prev(m)];
    if D >= 0 {
      assert RecordOk(tris, np, R);
      assert SlotOk(tris, R, Prev(m)) && Mirrors(tris, R, Prev(m));
      assert r[D] == tris[D];
    }
  }

  /** R's new last neighbour is C, across b-i, relinked to name R. */
  lemma FlipRightLastOk(tris: seq<Polygon>, np: int, L: int, i: int, r: seq<Polygon>)
    requires FlipReady(tris, np, L, i) && FlipSafe(tris, L) && IsFlip(tris, L, i, r)
    ensures Shaped(r[tris[L].edges[1]]) && SlotOk(r, tris[L].edges[1], 2)
  {
    FlipFacts(tris, np, L, i);
    var R, C := tris[L].edges[1], tris[L].edges[2];
    assert RecordOk(tris, np, L);
    assert SlotOk(tris, L, 2) && Mirrors(tris, L, 2);
    RelinkSlotOfNew(tris[C], L, R);
    assert SlotOf(r[C].edges, R) == SlotOf(tris[C].edges, L);
  }

  /** The slots of an outer neighbour t (A or C) whose entry K (R or L) is
      relinked to V (L or R). */
  lemma FlipOuterSlotOk(tris: seq<Polygon>, np: int, L: int, i: int, r: seq<Polygon>, t: int, K: int, V: int, k: int)
    requires FlipReady(tris, np, L, i) && FlipSafe(tris, L) && IsFlip(tris, L, i, r)
    requires var R := tris[L].edges[1];
      var m := SlotOf(tris[R].edges, L);
      || (t == tris[R].edges[Next(m)] && t >= 0 && K == R && V == L)
      || (t == tris[L].edges[2] && K == L && V == R)
    requires 0 <= t < |tris| && 0 <= k < 3
    ensures Shaped(r[t]) && SlotOk(r, t, k)
  {
    FlipFacts(tris, np, L, i);
    assert RecordOk(tris, np, t);
    if k == SlotOf(tris[t].edges, K) {
      if K == tris[L].edges[1] {
        FlipARelinkedOk(tris, np, L, i, r);
      } else {
        FlipCRelinkedOk(tris, np, L, i, r);
      }
    } else {
      FlipOuterKeptOk(tris, np, L, i, r, t, K, V, k);
    }
  }

  /** A's relinked slot names the new L, which names A back across a-opp. */
  lemma FlipARelinkedOk(tris: seq<Polygon>, np: int, L: int, i: int, r: seq<Polygon>)
    requires FlipReady(tris, np, L, i) && FlipSafe(tris, L) && IsFlip(tris, L, i, r)
    requires var R := tris[L].edges[1]; tris[R].edges[Next(SlotOf(tris[R].edges, L))] >= 0
    ensures var R := tris[L].edges[1];
      var A := tris[R].edges[Next(SlotOf(tris[R].edges, L))];
      0 <= A < |r| && Shaped(r[A]) && SlotOk(r, A, SlotOf(tris[A].edges, R))
  {
    FlipFacts(tris, np, L, i);
    var R := tris[L].edges[1];
    var m := SlotOf(tris[R].edges, L);
    var A := tris[R].edges[Next(m)];
    assert r[A] == Relink(tris[A], R, L);
    assert r[A].edges[SlotOf(tris[A].edges, R)] == L;
    assert SlotOf(r[L].edges, A) == 1;
    assert RecordOk(tris, np, R);
    assert SlotOk(tris, R, Next(m)) && Mirrors(tris, R, Next(m));
  }

  /** C's relinked slot names the new R, which names C back across b-i. */
  lemma FlipCRelinkedOk(tris: seq<Polygon>, np: int, L: int, i: int, r: seq<Polygon>)
    requires FlipReady(tris, np, L, i) && FlipSafe(tris, L) && IsFlip(tris, L, i, r)
    ensures var R, C := tris[L].edges[1], tris[L].edges[2];
      0 <= C < |r| && Shaped(r[C]) && Shaped(tris[C]) && SlotOk(r, C, SlotOf(tris[C].edges, L))
  {
    FlipFacts(tris, np, L, i);
    var R, C := tris[L].edges[1], tris[L].edges[2];
    assert r[C] == Relink(tris[C], L, R);
    assert r[C].edges[SlotOf(tris[C].edges, L)] == R;
    assert SlotOf(r[R].edges, C) == 2;
    assert RecordOk(tris, np, L);
    assert SlotOk(tris, L, 2) && Mirrors(tris, L, 2);
  }

  /** The slots of A and C that were not relinked keep their mirrored neighbours. */
  lemma FlipOuterKeptOk(tris: seq<Polygon>, np: int, L: int, i: int, r: seq<Polygon>, t: int, K: int, V: int, k: int)
    requires FlipReady(tris, np, L, i) && FlipSafe(tris, L) && IsFlip(tris, L, i, r)
    requires var R := tris[L].edges[1];
      var m := SlotOf(tris[R].edges, L);
      || (t == tris[R].edges[Next(m)] && t >= 0 && K == R && V == L)
      || (t == tris[L].edges[2] && K == L && V == R)
    requires 0 <= t < |tris| && 0 <= k < 3 && Shaped(tris[t]) && k != SlotOf(tris[t].edges, K)
    ensures Shaped(r[t]) && SlotOk(r, t, k)
  {
    FlipFacts(tris, np, L, i);
    var R := tris[L].edges[1];
    var m := SlotOf(tris[R].edges, L);
    var A, C := tris[R].edges[Next(m)], tris[L].edges[2];
    assert r[t] == Relink(tris[t], K, V);
    assert RecordOk(tris, np, t);
    var u := tris[t].edges[k];
    assert SlotOk(tris, t, k);
    assert r[t].edges[k] == u && u != K && u != V;
    if u >= 0 {
      FlipKeptMirrors(tris, np, L, i, r, t, k);
    }
  }

  /** A slot that the flip does not touch, of a record other than L and R,
      naming a record other than L and R, is still mirrored: the record it
      names lists it back in the same slot as before. */
  lemma FlipKeptMirrors(tris: seq<Polygon>, np: int, L: int, i: int, r: seq<Polygon>, t: int, k: int)
    requires FlipReady(tris, np, L, i) && FlipSafe(tris, L) && IsFlip(tris, L, i, r)
    requires 0 <= t < |tris| && 0 <= k < 3 && Shaped(tris[t]) && Shaped(r[t])
    requires t != L && t != tris[L].edges[1]
    requires r[t].vertices == tris[t].vertices && r[t].edges[k] == tris[t].edges[k]
    requires 0 <= tris[t].edges[k] && tris[t].edges[k] != L && tris[t].edges[k] != tris[L].edges[1]
    ensures SlotOk(r, t, k)
  {
    FlipFacts(tris, np, L, i);
    var R := tris[L].edges[1];
    var m := SlotOf(tris[R].edges, L);
    var A, C := tris[R].edges[Next(m)], tris[L].edges[2];
    assert RecordOk(tris, np, t);
    assert SlotOk(tris, t, k);
    var u := tris[t].edges[k];
    assert Mirrors(tris, t, k);
    if u == A {
      assert r[u] == Relink(tris[u], R, L);
      RelinkSlotOf(tris[u], R, L, t);
    } else if u == C {
      assert r[u] == Relink(tris[u], L, R);
      RelinkSlotOf(tris[u], L, R, t);
    } else {
      assert r[u] == tris[u];
    }
  }

  /** The slots of a record that the flip leaves as it was. */
  lemma FlipOtherSlotOk(tris: seq<Polygon>, np: int, L: int, i: int, r: seq<Polygon>, t: int, k: int)
    requires FlipReady(tris, np, L, i) && FlipSafe(tris, L) && IsFlip(tris, L, i, r)
    requires var R := tris[L].edges[1];
      var m := SlotOf(tris[R].edges, L);
      0 <= t < |tris| && t != L && t != R && t != tris[R].edges[Next(m)] && t != tris[L].edges[2]
    requires 0 <= k < 3
    ensures Shaped(r[t]) && SlotOk(r, t, k)
  {
    FlipFacts(tris, np, L, i);
    var R := tris[L].edges[1];
    var m := SlotOf(tris[R].edges, L);
    assert r[t] == tris[t];
    assert RecordOk(tris, np, t);
    var u := tris[t].edges[k];
    if u == L || u == R {
      FlipFacingOk(tris, np, L, i, r, t, k);
    } else if u >= 0 {
      FlipKeptMirrors(tris, np, L, i, r, t, k);
    }
  }

  /** A record the flip leaves alone that lists L or R is E or D, the outer
      neighbour that keeps its edge: L lists E in its first slot and R lists
      D in its middle slot after the flip, across the same edge. */
  lemma FlipFacingOk(tris: seq<Polygon>, np: int, L: int, i: int, r: seq<Polygon>, t: int, k: int)
    requires FlipReady(tris, np, L, i) && FlipSafe(tris, L) && IsFlip(tris, L, i, r)
    requires var R := tris[L].edges[1];
      var m := SlotOf(tris[R].edges, L);
      0 <= t < |tris| && t != L && t != R && t != tris[R].edges[Next(m)] && t != tris[L].edges[2]
    requires 0 <= k < 3 && Shaped(tris[t]) && r[t] == tris[t]
    requires tris[t].edges[k] == L || tris[t].edges[k] == tris[L].edges[1]
    ensures SlotOk(r, t, k)
  {
    if tris[t].edges[k] == L {
      FlipFacingLeftOk(tris, np, L, i, r, t, k);
    } else {
      FlipFacingRightOk(tris, np, L, i, r, t, k);
    }
  }

  /** The record E facing L across the edge i-a keeps a mirrored slot. */
  lemma FlipFacingLeftOk(tris: seq<Polygon>, np: int, L: int, i: int, r: seq<Polygon>, t: int, k: int)
    requires FlipReady(tris, np, L, i) && FlipSafe(tris, L) && IsFlip(tris, L, i, r)
    requires 0 <= t < |tris| && t != L && t != tris[L].edges[1] && t != tris[L].edges[2]
    requires 0 <= k < 3 && Shaped(tris[t]) && r[t] == tris[t] && tris[t].edges[k] == L
    ensures SlotOk(r, t, k)
  {
    FlipFacts(tris, np, L, i);
    assert RecordOk(tris, np, t) && SlotOk(tris, t, k) && Mirrors(tris, t, k);
    assert RecordOk(tris, np, L);
    assert t == tris[L].edges[0];
    assert SlotOf(r[L].edges, t) == 0;
    assert Mirrors(r, t, k);
  }

  /** The record D facing R across the edge opp-b keeps a mirrored slot. */
  lemma FlipFacingRightOk(tris: seq<Polygon>, np: int, L: int, i: int, r: seq<Polygon>, t: int, k: int)
    requires FlipReady(tris, np, L, i) && FlipSafe(tris, L) && IsFlip(tris, L, i, r)
    requires var R := tris[L].edges[1];
      var m := SlotOf(tris[R].edges, L);
      0 <= t < |tris| && t != L && t != R && t != tris[R].edges[Next(m)]
    requires 0 <= k < 3 && Shaped(tris[t]) && r[t] == tris[t] && tris[t].edges[k] == tris[L].edges[1]
    ensures SlotOk(r, t, k)
  {
    FlipFacts(tris, np, L, i);
    var R := tris[L].edges[1];
    var m := SlotOf(tris[R].edges, L);
    assert RecordOk(tris, np, t) && SlotOk(tris, t, k) && Mirrors(tris, t, k);
    assert RecordOk(tris, np, R);
    assert t == tris[R].edges[Prev(m)];
    assert SlotOf(r[R].edges, t) == 1;
    assert Mirrors(r, t, k);
  }
}
