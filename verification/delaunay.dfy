/** The incremental Delaunay triangulator: a point list and a triangle list that
    its operations update in place. Each operation is proved to produce the list
    that the corresponding specification function computes. */
module Delaunay {
  import opened Geometry
  import opened Mesh
  import opened Insertion
  import opened Legalization
  import opened Cleanup
  import opened BinSorting

  /** What a guarded push of record t puts on the triangle stack: t itself when
      its edge opposite the inserted point has a neighbour, nothing otherwise. */
  function Open(tris: seq<Polygon>, t: int): (s: seq<int>)
    requires 0 <= t < |tris| && Shaped(tris[t])
    ensures |s| <= 1 && (s == [t] <==> tris[t].edges[1] >= 0) && (s == [] <==> tris[t].edges[1] < 0)
  {
    if tris[t].edges[1] >= 0 then [t] else []
  }

  /** How the legalization of the triangles around a new point ended: the
      stack emptied, the step budget ran out, a flip would have joined two
      points that already share a triangle, or the stack had no room left. */
  datatype Status = Done | OutOfFuel | Degenerate | StackFull

  /** The stack holds distinct records whose first vertex is the inserted point
      i and whose edge opposite i has a neighbour. */
  ghost predicate StackOk(tris: seq<Polygon>, stk: seq<int>, i: int) {
    (forall k | 0 <= k < |stk| ::
       0 <= stk[k] < |tris| && Shaped(tris[stk[k]]) && tris[stk[k]].vertices[0] == i
       && tris[stk[k]].edges[1] >= 0)
    && (forall k, k' | 0 <= k < k' < |stk| :: stk[k] != stk[k'])
  }

  /** Popping keeps the stack well formed, and the popped record is not left
      below. */
  lemma StackPop(tris: seq<Polygon>, stk: seq<int>, i: int)
    requires StackOk(tris, stk, i) && stk != []
    ensures StackOk(tris, stk[..|stk| - 1], i) && stk[|stk| - 1] !in stk[..|stk| - 1]
  {
  }

  /** Pushing a record that starts at i, is not on the stack, and passes the
      push guard keeps the stack well formed. */
  lemma StackPush(tris: seq<Polygon>, stk: seq<int>, t: int, i: int)
    requires StackOk(tris, stk, i) && 0 <= t < |tris| && Shaped(tris[t]) && tris[t].vertices[0] == i
    requires t !in stk
    ensures StackOk(tris, stk + Open(tris, t), i)
  {
  }

  /** A flip keeps the rest of the stack well formed and leaves L and R off it,
      both starting at i. */
  lemma FlipKeepsStack(tris: seq<Polygon>, np: int, L: int, i: int, stk: seq<int>)
    requires FlipReady(tris, np, L, i) && StackOk(tris, stk, i) && L !in stk
    ensures FlipSafe(tris, L)
    ensures var r, R := Flip(tris, L, i), tris[L].edges[1];
      && StackOk(r, stk, i) && R !in stk && R != L
      && Shaped(r[L]) && r[L].vertices[0] == i && Shaped(r[R]) && r[R].vertices[0] == i
  {
    FlipFacts(tris, np, L, i);
    FlipShape(tris, np, L, i);
    FlipRecords(tris, L, i);
    var r, R := Flip(tris, L, i), tris[L].edges[1];
    forall k | 0 <= k < |stk|
      ensures 0 <= stk[k] < |r| && Shaped(r[stk[k]]) && r[stk[k]].vertices[0] == i && r[stk[k]].edges[1] >= 0
    {
      assert stk[k] != L;
      assert stk[k] != R by {
        assert tris[R].vertices[0] in tris[R].vertices;
      }
      FlipKeepsVertices(tris, np, L, i, r, stk[k]);
    }
  }

  /** The stack top L can be tested: L and its middle neighbour list each
      other, and the points the test reads are in the list. */
  ghost predicate TopReadable(tris: seq<Polygon>, np: int, L: int) {
    HasOpposite(tris, L) && 0 <= tris[L].vertices[1] < np && 0 <= tris[L].vertices[2] < np
    && 0 <= Opposite(tris, L) < np
  }

  /** In a valid mesh every record on the stack can be tested. */
  lemma TopReady(tris: seq<Polygon>, np: int, stk: seq<int>, i: int)
    requires MeshInv(tris, np) && StackOk(tris, stk, i) && stk != []
    ensures TopReadable(tris, np, stk[|stk| - 1]) && RecordOk(tris, np, stk[|stk| - 1])
  {
    var L := stk[|stk| - 1];
    assert RecordOk(tris, np, L) && SlotOk(tris, L, 1);
    assert RecordOk(tris, np, tris[L].edges[1]);
  }

  /** The test of the legalization for L = (i, a, b): the vertex opposite L
      across a-b lies inside the circumcircle of L. */
  predicate Illegal(tris: seq<Polygon>, pts: seq<Node>, L: int, i: int)
    requires TopReadable(tris, |pts|, L) && 0 <= i < |pts|
  {
    DelaunayCondition(pts[i], pts[tris[L].vertices[2]], pts[tris[L].vertices[1]], pts[Opposite(tris, L)])
  }

  /** The state of the legalization: the triangle list, the stack from bottom
      to top, and how the last round ended. */
  datatype Round = Round(tris: seq<Polygon>, stk: seq<int>, status: Status)

  /** What the legalization needs before each round: a valid mesh, a real
      inserted point i, and a well-formed stack that fits in cap entries. */
  ghost predicate Legalizable(tris: seq<Polygon>, np: int, stk: seq<int>, i: int, cap: int) {
    MeshInv(tris, np) && TouchesReal(tris, np) && 0 <= i < np && !Synthetic(i, np)
    && StackOk(tris, stk, i) && |stk| <= cap
  }

  /** One round of the legalization: pop L; if the test fails, keep the list;
      if it holds but i and the opposite vertex already share a triangle, stop
      as Degenerate; otherwise flip L and push L and then R = L.edges[1] when
      their edges opposite i have neighbours, stopping as StackFull when R
      does not fit. */
  ghost function LegalizeStep(tris: seq<Polygon>, pts: seq<Node>, stk: seq<int>, i: int, cap: int): (r: Round)
    requires Legalizable(tris, |pts|, stk, i, cap) && stk != []
    ensures r.status == Done || r.status == Degenerate || r.status == StackFull
    ensures |r.stk| >= |stk| - 1 && r.stk[..|stk| - 1] == stk[..|stk| - 1]
    ensures var L := stk[|stk| - 1];
      r.tris == tris || (FlipSafe(tris, L) && r.tris == Flip(tris, L, i))
  {
    var L, rest := stk[|stk| - 1], stk[..|stk| - 1];
    TopReady(tris, |pts|, stk, i);
    StackPop(tris, stk, i);
    if !Illegal(tris, pts, L, i) then Round(tris, rest, Done)
    else if Joined(tris, i, Opposite(tris, L)) then Round(tris, rest, Degenerate)
    else
      assert tris[L].vertices[0] == i && !HasBoth(tris[L], i, Opposite(tris, L));
      FlipKeepsStack(tris, |pts|, L, i, rest);
      var f, R := Flip(tris, L, i), tris[L].edges[1];
      var pushed := rest + Open(f, L);
      if f[R].edges[1] >= 0 && |pushed| >= cap then Round(f, pushed, StackFull)
      else Round(f, pushed + Open(f, R), Done)
  }

  /** A round keeps the mesh valid and the stack well formed and within cap. */
  lemma LegalizeStepKeeps(tris: seq<Polygon>, pts: seq<Node>, stk: seq<int>, i: int, cap: int)
    requires Legalizable(tris, |pts|, stk, i, cap) && stk != []
    ensures var r := LegalizeStep(tris, pts, stk, i, cap);
      Legalizable(r.tris, |pts|, r.stk, i, cap) && |r.tris| == |tris|
  {
    var L, rest := stk[|stk| - 1], stk[..|stk| - 1];
    TopReady(tris, |pts|, stk, i);
    StackPop(tris, stk, i);
    if Illegal(tris, pts, L, i) && !Joined(tris, i, Opposite(tris, L)) {
      assert tris[L].vertices[0] == i && !HasBoth(tris[L], i, Opposite(tris, L));
      FlipKeepsStack(tris, |pts|, L, i, rest);
      FlipPreservesMesh(tris, |pts|, L, i);
      var f, R := Flip(tris, L, i), tris[L].edges[1];
      StackPush(f, rest, L, i);
      if !(f[R].edges[1] >= 0 && |rest + Open(f, L)| >= cap) {
        StackPush(f, rest + Open(f, L), R, i);
      }
    }
  }

  /** The legalization loop with a budget of fuel rounds: stops with Done when
      the stack is empty, with OutOfFuel when the budget is spent, and with the
      status of the first round that does not end Done. */
  ghost function LegalizeRun(tris: seq<Polygon>, pts: seq<Node>, stk: seq<int>, i: int, cap: int, fuel: nat): (r: Round)
    requires Legalizable(tris, |pts|, stk, i, cap)
    ensures Legalizable(r.tris, |pts|, r.stk, i, cap) && |r.tris| == |tris|
    ensures r.status == Done ==> r.stk == []
    ensures r.status == OutOfFuel ==> r.stk != []
    decreases fuel
  {
    if stk == [] then Round(tris, stk, Done)
    else if fuel == 0 then Round(tris, stk, OutOfFuel)
    else
      LegalizeStepKeeps(tris, pts, stk, i, cap);
      var s := LegalizeStep(tris, pts, stk, i, cap);
      if s.status != Done then s else LegalizeRun(s.tris, pts, s.stk, i, cap, fuel - 1)
  }

  /** A round that ends Done leaves the rest of the loop to compute the same
      result with one unit of fuel less. */
  lemma LegalizeRunContinues(tris: seq<Polygon>, pts: seq<Node>, stk: seq<int>, i: int, cap: int, fuel: nat, fuel': nat, goal: Round)
    requires Legalizable(tris, |pts|, stk, i, cap) && stk != [] && fuel == fuel' + 1
    requires LegalizeRun(tris, pts, stk, i, cap, fuel) == goal
    requires LegalizeStep(tris, pts, stk, i, cap).status == Done
    ensures var s := LegalizeStep(tris, pts, stk, i, cap);
      Legalizable(s.tris, |pts|, s.stk, i, cap) && LegalizeRun(s.tris, pts, s.stk, i, cap, fuel') == goal
  {
    LegalizeStepKeeps(tris, pts, stk, i, cap);
  }

  /** A round that does not end Done is where the loop stops. */
  lemma LegalizeRunStops(tris: seq<Polygon>, pts: seq<Node>, stk: seq<int>, i: int, cap: int, fuel: nat)
    requires Legalizable(tris, |pts|, stk, i, cap) && stk != [] && fuel > 0
    requires LegalizeStep(tris, pts, stk, i, cap).status != Done
    ensures LegalizeRun(tris, pts, stk, i, cap, fuel) == LegalizeStep(tris, pts, stk, i, cap)
    ensures var s := LegalizeStep(tris, pts, stk, i, cap); Legalizable(s.tris, |pts|, s.stk, i, cap)
  {
    LegalizeStepKeeps(tris, pts, stk, i, cap);
  }

  /** The quadrilateral around L's middle edge can be rewired: L = (i, a, b)
      and its middle neighbour R list each other, R's vertices are distinct
      and do not include i, oppVert sits in slot oppVertID of R just before
      the edge R shares with L, and the outer neighbours A (of R) and C (of L)
      are records apart from L and R. */
  ghost predicate SwapReady(tris: seq<Polygon>, L: int, i: int, oppVert: int, oppVertID: int) {
    FlipSafe(tris, L)
    && var p, R := tris[L], tris[L].edges[1];
    var q := tris[R];
    var m := SlotOf(q.edges, L);
    var A, D, C := q.edges[Next(m)], q.edges[Prev(m)], p.edges[2];
    && oppVertID == Prev(m) && oppVert == q.vertices[Prev(m)]
    && q.vertices[0] != q.vertices[1] && q.vertices[1] != q.vertices[2] && q.vertices[2] != q.vertices[0]
    && i !in q.vertices && C >= 0 && C != A && C != R && L != C && p.edges[0] != C && p.edges[0] != R
    && (A >= 0 ==> A != D) && (A < 0 ==> D >= 0)
  }

  /** A flip that is ready, with the opposite vertex found where it lies, can
      be carried out by the rewiring. */
  lemma FlipReadySwap(tris: seq<Polygon>, np: int, L: int, i: int, oppVert: int, oppVertID: int)
    requires FlipReady(tris, np, L, i)
    requires oppVertID == Prev(SlotOf(tris[tris[L].edges[1]].edges, L)) && oppVert == Opposite(tris, L)
    ensures SwapReady(tris, L, i, oppVert, oppVertID)
  {
    FlipFacts(tris, np, L, i);
    FlipShape(tris, np, L, i);
    assert RecordOk(tris, np, tris[L].edges[1]);
  }

  /** The split as the triangulator performs it: append the two records with
      their vertices, relink the outer neighbours B and C, then give the new
      records their neighbours and turn T into the first of the three. */
  lemma SplitInStages(tris: seq<Polygon>, T: int, i: int)
    requires SplitSafe(tris, T)
    ensures var n, p := |tris|, tris[T];
      var grown := tris + [Polygon([i, p.vertices[1], p.vertices[2]], [-1, -1, -1]),
                           Polygon([i, p.vertices[2], p.vertices[0]], [-1, -1, -1])];
      var withB := if p.edges[1] >= 0 then grown[p.edges[1] := Relink(grown[p.edges[1]], T, n)] else grown;
      var withC := if p.edges[2] >= 0 then withB[p.edges[2] := Relink(withB[p.edges[2]], T, n + 1)] else withB;
      Split(tris, T, i)
      == withC[n := Polygon(withC[n].vertices, [T, withC[T].edges[1], n + 1])]
              [n + 1 := Polygon(withC[n + 1].vertices, [n, withC[T].edges[2], T])]
              [T := Polygon([i, withC[T].vertices[0], withC[T].vertices[1]], [n + 1, withC[T].edges[0], n])]
  {
    var n, p := |tris|, tris[T];
    var grown := tris + [Polygon([i, p.vertices[1], p.vertices[2]], [-1, -1, -1]),
                         Polygon([i, p.vertices[2], p.vertices[0]], [-1, -1, -1])];
    var withB := if p.edges[1] >= 0 then grown[p.edges[1] := Relink(grown[p.edges[1]], T, n)] else grown;
    var withC := if p.edges[2] >= 0 then withB[p.edges[2] := Relink(withB[p.edges[2]], T, n + 1)] else withB;
    assert withC[T] == p;
    var r := withC[n := Polygon(withC[n].vertices, [T, p.edges[1], n + 1])]
                  [n + 1 := Polygon(withC[n + 1].vertices, [n, p.edges[2], T])]
                  [T := Polygon([i, p.vertices[0], p.vertices[1]], [n + 1, p.edges[0], n])];
    assert IsSplit(tris, T, i, r);
    SplitUnique(tris, T, i, r);
  }

  /** Record p turned k places to the left, vertices and neighbours together. */
  function Rotated(p: Polygon, k: int): (r: Polygon)
    requires Shaped(p) && 0 <= k < 3
    ensures Shaped(r)
  {
    Polygon([p.vertices[k], p.vertices[Next(k)], p.vertices[Prev(k)]],
            [p.edges[k], p.edges[Next(k)], p.edges[Prev(k)]])
  }

  /** The cleanup's arithmetic for clearing a neighbour entry e: -1 when its
      record is dropped, e itself otherwise. */
  function Cleared(e: int, removed: bool): (c: int)
    ensures c == if removed then -1 else e
  {
    var r := if removed then 1 else 0;
    (1 - r) * e - r
  }

  /** A neighbour entry e moved down by the drop count recorded for it; -1 stays. */
  function Shifted(e: int, renumberAdj: array<int>): (e': int)
    requires e < renumberAdj.Length
    reads renumberAdj
  {
    if e >= 0 then e - renumberAdj[e] else e
  }

  class Triangular {
    var points: seq<Node>
    var triangles: seq<Polygon>

    constructor (points: seq<Node>)
      ensures this.points == points && triangles == []
    {
      this.points := points;
      triangles := [];
    }

    /** The slot of record L whose neighbour entry is K: the first match, or -1
        when K is not a neighbour of L. */
    method Edge(L: int, K: int) returns (m: int)
      requires 0 <= L < |triangles| && |triangles[L].edges| == 3
      ensures m == SlotOf(triangles[L].edges, K)
      ensures -1 <= m < 3 && (m == -1 <==> K !in triangles[L].edges)
      ensures m >= 0 ==> triangles[L].edges[m] == K && forall m' | 0 <= m' < m :: triangles[L].edges[m'] != K
    {
      m := 0;
      while m < 3
        invariant 0 <= m <= 3
        invariant forall m' | 0 <= m' < m :: triangles[L].edges[m'] != K
      {
        if triangles[L].edges[m] == K {
          return;
        }
        m := m + 1;
      }
      return -1;
    }

    /** Insertion sort of the points by their bin numbers keys, moving each
        point together with its bin number; returns the sorted bin numbers. */
    method BinSort(keys: seq<int>) returns (sorted: seq<int>)
      requires |keys| == |points|
      modifies this
      ensures triangles == old(triangles)
      ensures |sorted| == |points| == |old(points)|
      ensures Pairs(sorted, points) == SortByBin(Pairs(keys, old(points)))
    {
      var n := |points|;
      ghost var input := Pairs(keys, points);
      var bins := new int[n](k requires 0 <= k < n => keys[k]);
      if n == 0 {
        sorted := [];
        return;
      }
      SortByBinStep(input, 0);
      assert input[..0] == [];
      ghost var S: seq<Binned> := [input[0]];
      var i := 1;
      while i < n
        invariant 1 <= i <= n && |S| == i
        invariant S == SortByBin(input[..i])
        invariant |points| == n && triangles == old(triangles)
        invariant forall k {:trigger bins[k]} | 0 <= k < i :: bins[k] == S[k].bin
        invariant forall k {:trigger points[k]} | 0 <= k < i :: points[k] == S[k].point
        invariant forall k | i <= k < n :: bins[k] == keys[k] && points[k] == old(points)[k]
      {
        ghost var x := Binned(bins[i], points[i]);
        assert x == input[i];
        InsertNext(i, bins, S, x);
        SortByBinStep(input, i);
        S := Insert(S, x);
        i := i + 1;
      }
      sorted := bins[..];
      PairsOfParts(sorted, points, S);
      assert input[..n] == input;
    }

    /** One pass of the insertion sort: the entry at position i, bin number and
        point together, is moved down past every entry of the sorted prefix S
        with a larger bin number. */
    method InsertNext(i: int, bins: array<int>, ghost S: seq<Binned>, ghost x: Binned)
      requires 0 < i < bins.Length == |points| && |S| == i
      requires x == Binned(bins[i], points[i])
      requires forall k {:trigger bins[k]} | 0 <= k < i :: bins[k] == S[k].bin
      requires forall k {:trigger points[k]} | 0 <= k < i :: points[k] == S[k].point
      modifies this, bins
      ensures triangles == old(triangles) && |points| == old(|points|)
      ensures |Insert(S, x)| == i + 1
      ensures forall k {:trigger bins[k]} | 0 <= k <= i :: bins[k] == Insert(S, x)[k].bin
      ensures forall k {:trigger points[k]} | 0 <= k <= i :: points[k] == Insert(S, x)[k].point
      ensures forall k | i < k < bins.Length :: bins[k] == old(bins[k]) && points[k] == old(points[k])
    {
      var key := bins[i];
      var tempF := points[i];
      var j := i - 1;
      while j >= 0 && bins[j] > key
        invariant -1 <= j <= i - 1
        invariant |points| == bins.Length && triangles == old(triangles)
        invariant forall k {:trigger bins[k]} | 0 <= k <= j :: bins[k] == S[k].bin
        invariant forall k {:trigger points[k]} | 0 <= k <= j :: points[k] == S[k].point
        invariant forall k {:trigger bins[k]} | j + 2 <= k <= i :: bins[k] == S[k - 1].bin
        invariant forall k {:trigger points[k]} | j + 2 <= k <= i :: points[k] == S[k - 1].point
        invariant forall k | j + 1 <= k < i :: S[k].bin > key
        invariant forall k | i < k < bins.Length :: bins[k] == old(bins[k]) && points[k] == old(points[k])
      {
        bins[j + 1] := bins[j];
        points := points[j + 1 := points[j]];
        j := j - 1;
      }
      bins[j + 1] := key;
      points := points[j + 1 := tempF];
      InsertAtIndex(S, x, j + 1);
    }

    /** Inserts point i into record T, which has ntri - 2 records: T and two
        appended records form the three triangles around i, and those of them
        whose edge opposite i has a neighbour are pushed onto the stack. */
    method CreateNewTriangles(ntri: int, T: int, i: int, triOnStack: int, triStack: array<int>) returns (tos: int)
      requires SplitSafe(triangles, T) && ntri == |triangles| + 2
      requires -1 <= triOnStack && triOnStack + 3 < triStack.Length
      modifies this, triStack
      ensures points == old(points)
      ensures triangles == Split(old(triangles), T, i)
      ensures triOnStack <= tos <= triOnStack + 3
      ensures triStack[..tos + 1] == old(triStack[..triOnStack + 1]) + Open(triangles, T) + Open(triangles, ntri - 2) + Open(triangles, ntri - 1)
      ensures forall k | tos < k < triStack.Length :: triStack[k] == old(triStack[k])
    {
      SplitTriangle(ntri, T, i);
      SplitShape(old(triangles), T, i);
      tos := PushAround(T, ntri - 2, triOnStack, triStack);
    }

    /** Pushes T, n and n + 1, in that order, each when its edge opposite the
        inserted point has a neighbour. */
    method PushAround(T: int, n: int, triOnStack: int, triStack: array<int>) returns (tos: int)
      requires 0 <= T < |triangles| && 0 <= n && n + 1 < |triangles|
      requires Shaped(triangles[T]) && Shaped(triangles[n]) && Shaped(triangles[n + 1])
      requires -1 <= triOnStack && triOnStack + 3 < triStack.Length
      modifies triStack
      ensures triOnStack <= tos <= triOnStack + 3
      ensures triStack[..tos + 1] == old(triStack[..triOnStack + 1]) + Open(triangles, T) + Open(triangles, n) + Open(triangles, n + 1)
      ensures forall k | tos < k < triStack.Length :: triStack[k] == old(triStack[k])
    {
      tos := PushIfOpen(T, triOnStack, triStack);
      tos := PushIfOpen(n, tos, triStack);
      tos := PushIfOpen(n + 1, tos, triStack);
    }

    /** The rewiring half of the insertion: T is replaced by three triangles
        around point i, two of them appended, and the outer neighbours of T are
        relinked to the triangle that now lies across their edge. */
    method SplitTriangle(ntri: int, T: int, i: int)
      requires SplitSafe(triangles, T) && ntri == |triangles| + 2
      modifies this
      ensures points == old(points)
      ensures triangles == Split(old(triangles), T, i)
    {
      ghost var tris := triangles;
      AppendAround(ntri, T, i);
      ghost var grown := triangles;
      // The outer neighbours now face the new triangles.
      var A, B, C := triangles[T].edges[0], triangles[T].edges[1], triangles[T].edges[2];
      RelinkNeighbour(A, T, T);
      assert A >= 0 ==> Relink(grown[A], T, T) == grown[A];
      assert triangles == grown;
      RelinkNeighbour(B, T, ntri - 2);
      RelinkNeighbour(C, T, ntri - 1);
      LinkAround(ntri, T, i);
      SplitInStages(tris, T, i);
    }

    /** The resize step of the split: two records are appended whose vertices
        are i and an edge of T, with no neighbours yet. */
    method AppendAround(ntri: int, T: int, i: int)
      requires 0 <= T < |triangles| && Shaped(triangles[T]) && ntri == |triangles| + 2
      modifies this
      ensures points == old(points)
      ensures var p := old(triangles[T]);
        triangles == old(triangles) + [Polygon([i, p.vertices[1], p.vertices[2]], [-1, -1, -1]),
                                       Polygon([i, p.vertices[2], p.vertices[0]], [-1, -1, -1])]
    {
      triangles := triangles + [NewTriangle(), NewTriangle()];
      triangles := triangles[ntri - 2 := triangles[ntri - 2].(vertices := [i, triangles[T].vertices[1], triangles[T].vertices[2]])];
      triangles := triangles[ntri - 1 := triangles[ntri - 1].(vertices := [i, triangles[T].vertices[2], triangles[T].vertices[0]])];
    }

    /** The last step of the split: the two appended records get their
        neighbours, and T becomes the triangle on i and T's first edge. */
    method LinkAround(ntri: int, T: int, i: int)
      requires 0 <= T < ntri - 2 && ntri == |triangles|
      requires Shaped(triangles[T]) && Shaped(triangles[ntri - 2]) && Shaped(triangles[ntri - 1])
      modifies this
      ensures points == old(points)
      ensures var p, n := old(triangles[T]), ntri - 2;
        triangles == old(triangles)[n := Polygon(old(triangles[n]).vertices, [T, p.edges[1], n + 1])]
                                   [n + 1 := Polygon(old(triangles[n + 1]).vertices, [n, p.edges[2], T])]
                                   [T := Polygon([i, p.vertices[0], p.vertices[1]], [n + 1, p.edges[0], n])]
    {
      triangles := triangles[ntri - 2 := triangles[ntri - 2].(edges := [T, triangles[T].edges[1], ntri - 1])];
      triangles := triangles[ntri - 1 := triangles[ntri - 1].(edges := [ntri - 2, triangles[T].edges[2], T])];
      triangles := triangles[T := triangles[T].(vertices := [i, triangles[T].vertices[0], triangles[T].vertices[1]])];
      triangles := triangles[T := triangles[T].(edges := [ntri - 1, triangles[T].edges[0], ntri - 2])];
    }

    /** The vertex of L's middle neighbour R that is not on their shared edge,
        and its slot in R, found by scanning R's vertices. */
    method OppositeVertex(L: int) returns (oppVert: int, oppVertID: int)
      requires MeshInv(triangles, |points|) && 0 <= L < |triangles| && |triangles[L].edges| == 3
      requires triangles[L].edges[1] >= 0
      ensures HasOpposite(triangles, L)
      ensures oppVertID == Prev(SlotOf(triangles[triangles[L].edges[1]].edges, L))
      ensures oppVert == Opposite(triangles, L)
      ensures oppVert != triangles[L].vertices[1] && oppVert != triangles[L].vertices[2]
      ensures 0 <= oppVert < |points|
    {
      ghost var np := |points|;
      assert RecordOk(triangles, np, L) && SlotOk(triangles, L, 1);
      var R := triangles[L].edges[1];
      assert RecordOk(triangles, np, R);
      ghost var mm := SlotOf(triangles[R].edges, L);
      oppVert, oppVertID := -1, -1;
      var k := 0;
      while k < 3 && (triangles[R].vertices[k] == triangles[L].vertices[1]
                      || triangles[R].vertices[k] == triangles[L].vertices[2])
        invariant 0 <= k <= Prev(mm)
      {
        k := k + 1;
      }
      if k < 3 {
        oppVert := triangles[R].vertices[k];
        oppVertID := k;
      }
    }

    /** Replaces the diagonal a-b of the quadrilateral formed by L = (i, a, b)
        and its middle neighbour R by the diagonal from i to R's opposite
        vertex, rewiring L, R and their outer neighbours A and C. */
    method SwapDiagonal(L: int, i: int, oppVert: int, oppVertID: int)
      requires SwapReady(triangles, L, i, oppVert, oppVertID)
      modifies this
      ensures points == old(points)
      ensures FlipSafe(old(triangles), L) && triangles == Flip(old(triangles), L, i)
    {
      ghost var tris := triangles;
      ghost var p := tris[L];
      var R := triangles[L].edges[1];
      var C := triangles[L].edges[2];
      ghost var q := tris[R];
      ghost var mm := SlotOf(q.edges, L);
      assert (oppVertID + 2) % 3 == Next(mm);
      var A := triangles[R].edges[(oppVertID + 2) % 3];
      // Fix the adjacency of A and of C.
      RelinkNeighbour(A, R, L);
      RelinkNeighbour(C, L, R);
      assert triangles[R] == q && triangles[L] == p;
      RewireRight(L, R, A, C, i, oppVert);
      RewireLeft(L, R, A, C, oppVert);
    }

    /** The part of the diagonal swap that rewires R = (b, a, opp), up to
        rotation: a becomes i, the slot facing L now faces C and the slot
        facing A now faces L, then R is rotated until i comes first. */
    method RewireRight(L: int, R: int, A: int, C: int, i: int, oppVert: int)
      requires 0 <= R < |triangles| && Shaped(triangles[R])
      requires var q := triangles[R];
        var mm := SlotOf(q.edges, L);
        && mm >= 0 && A == q.edges[Next(mm)] && oppVert == q.vertices[Prev(mm)]
        && q.vertices[0] != q.vertices[1] && q.vertices[1] != q.vertices[2] && q.vertices[2] != q.vertices[0]
        && i !in q.vertices && C != A && L != C
        && (A >= 0 ==> A != q.edges[Prev(mm)]) && (A < 0 ==> q.edges[Prev(mm)] >= 0)
      modifies this
      ensures points == old(points)
      ensures var q := old(triangles[R]);
        var mm := SlotOf(q.edges, L);
        triangles == old(triangles)[R := Polygon([i, q.vertices[Prev(mm)], q.vertices[mm]], [L, q.edges[Prev(mm)], C])]
    {
      ghost var tris := triangles;
      ghost var q := tris[R];
      ghost var mm := SlotOf(q.edges, L);
      // The vertex after the opposite one becomes i.
      var m := 0;
      while m < 3 && triangles[R].vertices[m] != oppVert
        invariant 0 <= m <= Prev(mm)
      {
        m := m + 1;
      }
      if m < 3 {
        triangles := triangles[R := triangles[R].(vertices := triangles[R].vertices[(m + 2) % 3 := i])];
      }
      var e := Edge(R, L);
      triangles := triangles[R := triangles[R].(edges := triangles[R].edges[e := C])];
      e := Edge(R, A);
      triangles := triangles[R := triangles[R].(edges := triangles[R].edges[e := L])];
      ghost var X := Polygon(q.vertices[Next(mm) := i], q.edges[mm := C][Next(mm) := L]);
      assert triangles == tris[R := X];
      assert Rotated(X, 0) == X;
      // Rotate R until i is its first vertex.
      ghost var k := 0;
      m := 0;
      while m < 3
        invariant 0 <= m <= 3 && 0 <= k <= m && k <= Next(mm) && points == old(points)
        invariant triangles == tris[R := Rotated(X, k)]
        invariant k < m ==> k == Next(mm)
      {
        if triangles[R].vertices[0] != i {
          triangles := triangles[R := Polygon([triangles[R].vertices[1], triangles[R].vertices[2], triangles[R].vertices[0]],
                                              [triangles[R].edges[1], triangles[R].edges[2], triangles[R].edges[0]])];
          k := k + 1;
        }
        m := m + 1;
      }
      assert Rotated(X, k) == Polygon([i, q.vertices[Prev(mm)], q.vertices[mm]], [L, q.edges[Prev(mm)], C]);
    }

    /** The part of the diagonal swap that rewires L = (i, a, b): b becomes the
        opposite vertex, the slot facing C now faces R and the slot facing R
        now faces A. */
    method RewireLeft(L: int, R: int, A: int, C: int, oppVert: int)
      requires 0 <= L < |triangles| && Shaped(triangles[L])
      requires var e := triangles[L].edges;
        e[1] == R && e[2] == C && C >= 0 && C != R && e[0] != C && e[0] != R
      modifies this
      ensures points == old(points)
      ensures var p := old(triangles[L]);
        triangles == old(triangles)[L := Polygon([p.vertices[0], p.vertices[1], oppVert], [p.edges[0], A, R])]
    {
      triangles := triangles[L := triangles[L].(vertices := triangles[L].vertices[2 := oppVert])];
      var e := Edge(L, C);
      triangles := triangles[L := triangles[L].(edges := triangles[L].edges[e := R])];
      e := Edge(L, R);
      triangles := triangles[L := triangles[L].(edges := triangles[L].edges[e := A])];
      ghost var p := old(triangles[L]);
      assert triangles[L].vertices == [p.vertices[0], p.vertices[1], oppVert];
      assert triangles[L].edges == [p.edges[0], A, R];
    }

    /** Legalizes the triangles around the inserted point i: pops a record L,
        and when the test says the opposite vertex of its middle neighbour lies
        inside its circumcircle, swaps the diagonal and pushes both triangles
        back. Stops when the stack is empty, after fuel steps, when a flip
        would join two points that already share a triangle, or when the stack
        has no room. */
    method EmptyStack(tos0: int, i: int, triStack: array<int>, fuel: nat) returns (tos: int, status: Status)
      requires MeshInv(triangles, |points|) && TouchesReal(triangles, |points|)
      requires 0 <= i < |points| && !Synthetic(i, |points|)
      requires -1 <= tos0 < triStack.Length && StackOk(triangles, triStack[..tos0 + 1], i)
      modifies this, triStack
      ensures points == old(points) && -1 <= tos < triStack.Length
      ensures Round(triangles, triStack[..tos + 1], status)
           == LegalizeRun(old(triangles), points, old(triStack[..tos0 + 1]), i, triStack.Length, fuel)
      ensures MeshInv(triangles, |points|) && TouchesReal(triangles, |points|)
      ensures StackOk(triangles, triStack[..tos + 1], i)
      ensures status == Done ==> tos == -1
    {
      ghost var pts, cap := points, triStack.Length;
      ghost var goal := LegalizeRun(triangles, pts, triStack[..tos0 + 1], i, cap, fuel);
      ghost var tris, stk := triangles, triStack[..tos0 + 1];
      tos := tos0;
      var steps: nat := fuel;
      while tos >= 0
        invariant points == pts && tris == triangles && -1 <= tos < cap && stk == triStack[..tos + 1]
        invariant Legalizable(tris, |pts|, stk, i, cap)
        invariant LegalizeRun(tris, pts, stk, i, cap, steps) == goal
        decreases steps
      {
        if steps == 0 {
          return tos, OutOfFuel;
        }
        ghost var r := LegalizeStep(tris, pts, stk, i, cap);
        var s;
        tos, s := LegalizeTop(tos, i, triStack);
        assert triangles == r.tris && triStack[..tos + 1] == r.stk && s == r.status;
        if s != Done {
          LegalizeRunStops(tris, pts, stk, i, cap, steps);
          return tos, s;
        }
        ghost var before := steps;
        steps := steps - 1;
        LegalizeRunContinues(tris, pts, stk, i, cap, before, steps, goal);
        tris, stk := r.tris, r.stk;
      }
      status := Done;
    }

    /** One round of the legalization: pops the top record L and flips it
        when the test asks for it. */
    method LegalizeTop(tos0: int, i: int, triStack: array<int>) returns (tos: int, status: Status)
      requires MeshInv(triangles, |points|) && TouchesReal(triangles, |points|)
      requires 0 <= i < |points| && !Synthetic(i, |points|)
      requires 0 <= tos0 < triStack.Length && StackOk(triangles, triStack[..tos0 + 1], i)
      modifies this, triStack
      ensures points == old(points) && -1 <= tos < triStack.Length
      ensures Round(triangles, triStack[..tos + 1], status)
           == LegalizeStep(old(triangles), points, old(triStack[..tos0 + 1]), i, triStack.Length)
      ensures var tris, L := old(triangles), old(triStack[tos0]);
        TopReadable(tris, |points|, L) && var opp := Opposite(tris, L);
        && (!Illegal(tris, points, L, i) ==> status == Done && triangles == tris && triStack[..tos + 1] == old(triStack[..tos0]))
        && (status == Degenerate <==> Illegal(tris, points, L, i) && Joined(tris, i, opp))
        && (status == Degenerate ==> triangles == tris && triStack[..tos + 1] == old(triStack[..tos0]))
        && (Illegal(tris, points, L, i) && !Joined(tris, i, opp) ==>
              var R := tris[L].edges[1];
              && FlipSafe(tris, L) && triangles == Flip(tris, L, i)
              && 0 <= R < |triangles| && Shaped(triangles[L]) && Shaped(triangles[R])
              && (status == Done ==> triStack[..tos + 1] == old(triStack[..tos0]) + Open(triangles, L) + Open(triangles, R))
              && (status == StackFull ==> triStack[..tos + 1] == old(triStack[..tos0]) + Open(triangles, L)))
    {
      ghost var stk := triStack[..tos0 + 1];
      TopReady(triangles, |points|, stk, i);
      StackPop(triangles, stk, i);
      assert stk[..tos0] == triStack[..tos0];
      var L := triStack[tos0];
      tos := tos0 - 1;
      var v1 := points[triangles[L].vertices[2]];
      var v2 := points[triangles[L].vertices[1]];
      var oppVert, oppVertID := OppositeVertex(L);
      var v3 := points[oppVert];
      var P := points[i];
      status := Done;
      if DelaunayCondition(P, v1, v2, v3) {
        if Joined(triangles, i, oppVert) {
          return tos, Degenerate;
        }
        // L has i, so the opposite vertex is not i: otherwise L would join them.
        assert triangles[L].vertices[0] == i && !HasBoth(triangles[L], i, oppVert);
        tos, status := FlipAndPush(L, i, oppVert, oppVertID, tos, triStack);
      }
    }

    /** Swaps the diagonal of L and pushes L and then its former middle
        neighbour R back when their edges opposite i have neighbours. */
    method FlipAndPush(L: int, i: int, oppVert: int, oppVertID: int, tos0: int, triStack: array<int>)
      returns (tos: int, status: Status)
      requires FlipReady(triangles, |points|, L, i)
      requires oppVertID == Prev(SlotOf(triangles[triangles[L].edges[1]].edges, L)) && oppVert == Opposite(triangles, L)
      requires -1 <= tos0 < triStack.Length - 1 && StackOk(triangles, triStack[..tos0 + 1], i) && L !in triStack[..tos0 + 1]
      modifies this, triStack
      ensures points == old(points) && FlipSafe(old(triangles), L) && triangles == Flip(old(triangles), L, i)
      ensures MeshInv(triangles, |points|) && TouchesReal(triangles, |points|)
      ensures -1 <= tos < triStack.Length && StackOk(triangles, triStack[..tos + 1], i)
      ensures status == Done || status == StackFull
      ensures var R := old(triangles[L].edges[1]);
        && 0 <= R < |triangles| && Shaped(triangles[L]) && Shaped(triangles[R])
        && (status == StackFull <==> triangles[R].edges[1] >= 0 && tos0 + |Open(triangles, L)| + 1 >= triStack.Length)
        && (status == Done ==> triStack[..tos + 1] == old(triStack[..tos0 + 1]) + Open(triangles, L) + Open(triangles, R))
        && (status == StackFull ==> triStack[..tos + 1] == old(triStack[..tos0 + 1]) + Open(triangles, L))
    {
      ghost var stk := triStack[..tos0 + 1];
      var R := triangles[L].edges[1];
      FlipKeepsStack(triangles, |points|, L, i, stk);
      FlipPreservesMesh(triangles, |points|, L, i);
      FlipReadySwap(triangles, |points|, L, i, oppVert, oppVertID);
      SwapDiagonal(L, i, oppVert, oppVertID);
      tos := PushIfOpen(L, tos0, triStack);
      StackPush(triangles, stk, L, i);
      status := Done;
      if triangles[R].edges[1] >= 0 && tos + 1 >= triStack.Length {
        return tos, StackFull;
      }
      ghost var stk' := triStack[..tos + 1];
      tos := PushIfOpen(R, tos, triStack);
      StackPush(triangles, stk', R, i);
    }

    /** Drops every triangle with a supertriangle vertex and the three
        supertriangle points, renumbering the neighbour entries of the kept
        triangles; returns the new number of triangles. */
    method RemoveSuperTriangle(ntri: int) returns (ntri': int)
      requires ntri == |triangles| && |points| >= 3 && CleanupSafe(triangles, |points|)
      modifies this
      ensures points == old(points)[..|old(points)| - 3]
      ensures triangles == Compact(old(triangles), |old(points)|)
      ensures ntri' == |triangles|
    {
      var np := |points|;
      var removeEdge := new bool[ntri](_ => false);
      var renumberAdj := new int[ntri];
      var nTFinal := MarkDoomed(removeEdge, renumberAdj);
      var trianglesFinal := new Polygon[nTFinal](_ => NewTriangle());
      CopyKept(removeEdge, trianglesFinal);
      RenumberKept(renumberAdj, trianglesFinal);
      ghost var K := Kept(triangles, np);
      assert forall j | 0 <= j < nTFinal :: trianglesFinal[j] == Compact(triangles, np)[j];
      points := points[..np - 3];
      triangles := trianglesFinal[..];
      ntri' := nTFinal;
    }

    /** The first pass of the cleanup: flags the triangles to drop and records
        for each triangle how many were dropped before it. Returns the number
        kept. */
    method MarkDoomed(removeEdge: array<bool>, renumberAdj: array<int>) returns (nTFinal: int)
      requires AllShaped(triangles)
      requires removeEdge.Length == renumberAdj.Length == |triangles|
      requires forall u | 0 <= u < removeEdge.Length :: !removeEdge[u]
      modifies removeEdge, renumberAdj
      ensures nTFinal == NewIndex(triangles, |points|, |triangles|)
      ensures forall u | 0 <= u < |triangles| ::
        removeEdge[u] == Doomed(triangles[u], |points|) && renumberAdj[u] == RemovedBefore(triangles, |points|, u)
    {
      var ntri, numPoints := |triangles|, |points|;
      nTFinal := ntri;
      var i := 0;
      while i < ntri
        invariant 0 <= i <= ntri
        invariant nTFinal == ntri - RemovedBefore(triangles, numPoints, i)
        invariant forall u {:trigger removeEdge[u]} | 0 <= u < i :: removeEdge[u] == Doomed(triangles[u], numPoints)
        invariant forall u | i <= u < ntri :: !removeEdge[u]
        invariant forall u {:trigger renumberAdj[u]} | 0 <= u < i :: renumberAdj[u] == RemovedBefore(triangles, numPoints, u)
      {
        var v := triangles[i].vertices;
        ghost var doomed := Doomed(triangles[i], numPoints);
        assert RemovedBefore(triangles, numPoints, i + 1) == RemovedBefore(triangles, numPoints, i) + if doomed then 1 else 0;
        if v[0] >= numPoints - 3 || v[1] >= numPoints - 3 || v[2] >= numPoints - 3 {
          removeEdge[i] := true;
          renumberAdj[i] := ntri - nTFinal;
          nTFinal := nTFinal - 1;
        } else {
          renumberAdj[i] := ntri - nTFinal;
        }
        i := i + 1;
      }
    }

    /** The second pass: copies the kept triangles in order, clearing to -1
        every neighbour entry that names a dropped triangle. */
    method CopyKept(removeEdge: array<bool>, trianglesFinal: array<Polygon>)
      requires CleanupSafe(triangles, |points|) && removeEdge.Length == |triangles|
      requires forall u {:trigger removeEdge[u]} | 0 <= u < |triangles| :: removeEdge[u] == Doomed(triangles[u], |points|)
      requires trianglesFinal.Length == NewIndex(triangles, |points|, |triangles|)
      modifies trianglesFinal
      ensures forall j {:trigger trianglesFinal[j]} | 0 <= j < trianglesFinal.Length ::
        trianglesFinal[j] == Masked(triangles, |points|, Kept(triangles, |points|)[j])
    {
      var tris, numPoints := triangles, |points|;
      var ntri := |tris|;
      ghost var K := Kept(tris, numPoints);
      var index := 0;
      var i := 0;
      while i < ntri
        invariant 0 <= i <= ntri && index == NewIndex(tris, numPoints, i) <= |K|
        invariant forall j {:trigger trianglesFinal[j]} | 0 <= j < index :: trianglesFinal[j] == Masked(tris, numPoints, K[j])
      {
        var v := tris[i].vertices;
        if v[0] < numPoints - 3 && v[1] < numPoints - 3 && v[2] < numPoints - 3 {
          KeptAt(tris, numPoints, i);
          var e := tris[i].edges;
          var p := Polygon(v, [Cleared(e[0], removeEdge[e[0]]),
                               Cleared(e[1], removeEdge[e[1]]),
                               Cleared(e[2], removeEdge[e[2]])]);
          assert p == Masked(tris, numPoints, i);
          trianglesFinal[index] := p;
          index := index + 1;
        }
        i := i + 1;
      }
    }

    /** The third pass: moves every remaining neighbour entry down by the
        number of triangles dropped before the neighbour. */
    method RenumberKept(renumberAdj: array<int>, trianglesFinal: array<Polygon>)
      requires CleanupSafe(triangles, |points|) && renumberAdj.Length == |triangles|
      requires forall u {:trigger renumberAdj[u]} | 0 <= u < |triangles| :: renumberAdj[u] == RemovedBefore(triangles, |points|, u)
      requires trianglesFinal.Length == NewIndex(triangles, |points|, |triangles|)
      requires forall j {:trigger trianglesFinal[j]} | 0 <= j < trianglesFinal.Length ::
        trianglesFinal[j] == Masked(triangles, |points|, Kept(triangles, |points|)[j])
      modifies trianglesFinal
      ensures forall j {:trigger trianglesFinal[j]} | 0 <= j < trianglesFinal.Length ::
        trianglesFinal[j] == Renumbered(triangles, |points|, Kept(triangles, |points|)[j])
    {
      var tris, numPoints := triangles, |points|;
      ghost var K := Kept(tris, numPoints);
      var i := 0;
      while i < trianglesFinal.Length
        invariant 0 <= i <= trianglesFinal.Length
        invariant forall j {:trigger trianglesFinal[j]} | 0 <= j < i :: trianglesFinal[j] == Renumbered(tris, numPoints, K[j])
        invariant forall j {:trigger trianglesFinal[j]} | i <= j < trianglesFinal.Length :: trianglesFinal[j] == Masked(tris, numPoints, K[j])
      {
        var e := trianglesFinal[i].edges;
        MaskedRenumbers(tris, numPoints, K[i], 0);
        MaskedRenumbers(tris, numPoints, K[i], 1);
        MaskedRenumbers(tris, numPoints, K[i], 2);
        var p := trianglesFinal[i].(edges := [Shifted(e[0], renumberAdj), Shifted(e[1], renumberAdj), Shifted(e[2], renumberAdj)]);
        assert p == Renumbered(tris, numPoints, K[i]);
        trianglesFinal[i] := p;
        i := i + 1;
      }
    }

    /** Makes neighbour X, when there is one, list V in the slot where it
        listed K. */
    method RelinkNeighbour(X: int, K: int, V: int)
      requires X >= 0 ==> X < |triangles| && Shaped(triangles[X]) && SlotOf(triangles[X].edges, K) >= 0
      modifies this
      ensures points == old(points)
      ensures triangles == if X >= 0 then old(triangles)[X := Relink(old(triangles)[X], K, V)] else old(triangles)
    {
      if X >= 0 {
        var m := Edge(X, K);
        triangles := triangles[X := triangles[X].(edges := triangles[X].edges[m := V])];
      }
    }

    /** Pushes record t onto the stack above position tos when its edge opposite
        the inserted point has a neighbour. */
    method PushIfOpen(t: int, tos: int, triStack: array<int>) returns (tos': int)
      requires 0 <= t < |triangles| && Shaped(triangles[t])
      requires -1 <= tos < triStack.Length
      requires triangles[t].edges[1] >= 0 ==> tos + 1 < triStack.Length
      modifies triStack
      ensures tos' == (if triangles[t].edges[1] >= 0 then tos + 1 else tos)
      ensures tos' == tos + |Open(triangles, t)|
      ensures triStack[..tos' + 1] == old(triStack[..tos + 1]) + Open(triangles, t)
      ensures forall k | tos' < k < triStack.Length :: triStack[k] == old(triStack[k])
    {
      tos' := tos;
      if triangles[t].edges[1] >= 0 {
        tos' := tos' + 1;
        triStack[tos'] := t;
      }
    }
  }
}
