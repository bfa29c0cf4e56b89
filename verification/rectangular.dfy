/** The structured grid: iMax x jMax points laid out row by row, the
    quadrilateral cells between them with their four neighbours, and the
    structure of one Gauss-Seidel relaxation sweep over the interior points.
    A cell lists its neighbours in the order right, up, left, down, -1 on the
    border of the grid. */
module Structured {
  import opened Geometry

  /** A positive multiple of b is at least b. */
  lemma {:induction false} MulAtLeast(a: int, b: int)
    requires a >= 1 && b >= 0
    ensures a * b >= b
    decreases a
  {
    if a > 1 {
      MulAtLeast(a - 1, b);
      assert a * b == (a - 1) * b + b;
    }
  }

  /** Quotient and remainder are unique: k = q * w + m with m in 0..w - 1
      means q is k / w and m is k % w. */
  lemma DivModUnique(k: int, w: int, q: int, m: int)
    requires w >= 1 && 0 <= m < w && k == q * w + m
    ensures k / w == q && k % w == m
  {
    var q', m' := k / w, k % w;
    assert k == q' * w + m';
    assert (q - q') * w == q * w - q' * w;
    if q > q' {
      MulAtLeast(q - q', w);
    } else if q < q' {
      MulAtLeast(q' - q, w);
    }
  }

  /** The next row starts w indices later. */
  lemma ShiftRow(r: int, w: int)
    ensures (r + 1) * w == r * w + w
  {
  }

  /** Row-major decomposition: index r * w + c, with column c in 0..w - 1, is
      row r, column c. */
  lemma RowMajor(r: int, c: int, w: int)
    requires 0 <= c < w
    ensures (r * w + c) / w == r && (r * w + c) % w == c
  {
    DivModUnique(r * w + c, w, r, c);
  }

  /** Row r < h of a w-wide row-major layout ends before index h * w. */
  lemma RowBound(r: int, c: int, w: int, h: int)
    requires 0 <= r < h && 0 <= c < w
    ensures 0 <= r * w + c < h * w
  {
    MulAtLeast(h - r, w);
    assert h * w == r * w + (h - r) * w;
    if r > 0 {
      MulAtLeast(r, w);
    }
  }

  /** An index below h * w lies in one of the h rows. */
  lemma Decompose(k: int, w: int, h: int)
    requires 0 <= k < h * w && w >= 1
    ensures 0 <= k / w < h && 0 <= k % w < w && k == (k / w) * w + k % w
  {
    var q, m := k / w, k % w;
    assert k == q * w + m;
    if q >= h {
      MulAtLeast(q - h + 1, w);
    }
    if q < 0 {
      MulAtLeast(-q, w);
    }
  }

  // ---------------------------------------------------------------- points

  /** Grid point k of a row-major layout of width iMax, at column k % iMax and
      row k / iMax. */
  function GridPoint(k: int, iMax: int): Node
    requires iMax >= 1
  {
    Node((k % iMax) as real, (k / iMax) as real)
  }

  /** The first n grid points of width iMax. */
  function GridPoints(n: nat, iMax: int): (s: seq<Node>)
    requires iMax >= 1
    ensures |s| == n
  {
    seq(n, k requires 0 <= k < n => GridPoint(k, iMax))
  }

  /** The point of row r, column c sits at index r * iMax + c and has
      coordinates (c, r): the layout and its coordinates are inverse. */
  lemma GridPointsAt(iMax: int, jMax: int, r: int, c: int)
    requires iMax >= 1 && 0 <= r < jMax && 0 <= c < iMax
    ensures r * iMax + c < |GridPoints(iMax * jMax, iMax)|
    ensures GridPoints(iMax * jMax, iMax)[r * iMax + c] == Node(c as real, r as real)
  {
    RowBound(r, c, iMax, jMax);
    RowMajor(r, c, iMax);
  }

  /** Different indices of the layout are different points. */
  lemma GridPointsDistinct(iMax: int, k: int, k': int)
    requires iMax >= 1 && 0 <= k < k'
    ensures GridPoint(k, iMax) != GridPoint(k', iMax)
  {
  }

  // ----------------------------------------------------------------- cells

  /** The vertices of the cell at row r, column c of a grid with iMax points
      per row: its lower-left, upper-left, upper-right and lower-right points. */
  function CornerPoints(r: int, c: int, iMax: int): seq<int> {
    [r * iMax + c, (r + 1) * iMax + c, (r + 1) * iMax + (c + 1), r * iMax + (c + 1)]
  }

  /** The vertices of cell k, cells being numbered row by row, iMax - 1 per row. */
  function CellVertices(k: int, iMax: int): seq<int>
    requires iMax >= 2
  {
    CornerPoints(k / (iMax - 1), k % (iMax - 1), iMax)
  }

  /** The neighbours of cell k in a grid of iMax x jMax points: right, up, left
      and down, -1 on the matching border. */
  function CellEdges(k: int, iMax: int, jMax: int): seq<int>
    requires iMax >= 2
  {
    var w := iMax - 1;
    [if k % w == w - 1 then -1 else k + 1,
     if k / w == jMax - 2 then -1 else k + w,
     if k % w == 0 then -1 else k - 1,
     if k / w == 0 then -1 else k - w]
  }

  /** The neighbours of cell k as the code computes them: the up and down
      entries step by iMax, one more than the number of cells per row. */
  function WrittenCellEdges(k: int, iMax: int, jMax: int): seq<int>
    requires iMax >= 2
  {
    var w := iMax - 1;
    [if k % w == w - 1 then -1 else k + 1,
     if k / w == jMax - 2 then -1 else k + 1 + w,
     if k % w == 0 then -1 else k - 1,
     if k / w == 0 then -1 else k - 1 - w]
  }

  /** The number of cells of a grid of iMax x jMax points. */
  function CellCount(iMax: int, jMax: int): nat {
    if iMax < 2 || jMax < 2 then 0 else MulAtLeast(iMax - 1, jMax - 1); (iMax - 1) * (jMax - 1)
  }

  /** The cells of an iMax x jMax grid, row by row. */
  function Grid(iMax: int, jMax: int): (g: seq<Polygon>)
    ensures |g| == CellCount(iMax, jMax)
  {
    if iMax < 2 || jMax < 2 then []
    else seq(CellCount(iMax, jMax), k requires 0 <= k < CellCount(iMax, jMax) =>
           Polygon(CellVertices(k, iMax), CellEdges(k, iMax, jMax)))
  }

  /** The corners of the cell at row r, column c, as offsets from its
      lower-left corner. */
  lemma CornerOffsets(r: int, c: int, iMax: int, jMax: int)
    requires 0 <= r < jMax - 1 && 0 <= c < iMax - 1
    ensures var v := CornerPoints(r, c, iMax);
      v[1] == v[0] + iMax && v[2] == v[0] + iMax + 1 && v[3] == v[0] + 1
      && 0 <= v[0] && v[2] < iMax * jMax
  {
    ShiftRow(r, iMax);
    RowBound(r + 1, c + 1, iMax, jMax);
    if r > 0 {
      MulAtLeast(r, iMax);
    }
  }

  /** Every cell has four vertices, distinct and within the iMax * jMax
      points, and four neighbour entries. */
  lemma GridVertices(iMax: int, jMax: int, k: int)
    requires 0 <= k < CellCount(iMax, jMax)
    ensures var p := Grid(iMax, jMax)[k];
      |p.vertices| == 4 && |p.edges| == 4
      && (forall m | 0 <= m < 4 :: 0 <= p.vertices[m] < iMax * jMax)
      && (forall m, m' | 0 <= m < m' < 4 :: p.vertices[m] != p.vertices[m'])
  {
    var w, h := iMax - 1, jMax - 1;
    Decompose(k, w, h);
    CornerOffsets(k / w, k % w, iMax, jMax);
  }

  /** Neighbour entry m of cell k is -1 exactly on the matching border of the
      grid (last column, last row, first column, first row), and otherwise a
      cell of the grid. */
  lemma GridEdgesBorder(iMax: int, jMax: int, k: int)
    requires 0 <= k < CellCount(iMax, jMax)
    ensures var e, w := Grid(iMax, jMax)[k].edges, iMax - 1;
      |e| == 4
      && (e[0] == -1 <==> k % w == w - 1) && (e[1] == -1 <==> k / w == jMax - 2)
      && (e[2] == -1 <==> k % w == 0) && (e[3] == -1 <==> k / w == 0)
      && (forall m | 0 <= m < 4 :: -1 <= e[m] < CellCount(iMax, jMax))
  {
    CellEdgesBorder(k, iMax - 1, jMax - 1);
  }

  /** CellEdges on a grid of w x h cells, cell k at row r, column c. */
  lemma CellEdgesBorder(k: int, w: int, h: int)
    requires w >= 1 && h >= 1 && 0 <= k < h * w
    ensures var e := CellEdges(k, w + 1, h + 1); var r, c := k / w, k % w;
      |e| == 4
      && (e[0] == -1 <==> c == w - 1) && (e[1] == -1 <==> r == h - 1)
      && (e[2] == -1 <==> c == 0) && (e[3] == -1 <==> r == 0)
      && (forall m | 0 <= m < 4 :: -1 <= e[m] < h * w)
  {
    Decompose(k, w, h);
    var r, c := k / w, k % w;
    if c < w - 1 {
      RowBound(r, c + 1, w, h);
    }
    if r < h - 1 {
      RowBound(r + 1, c, w, h);
      assert k + w == (r + 1) * w + c;
    }
    if r > 0 {
      MulAtLeast(r, w);
      assert k - w == (r - 1) * w + c;
    }
  }

  /** Cells k and k + 1 of one row name each other as right and left
      neighbours, k being row r, column c of a grid of w x h cells. */
  lemma HorizontalPair(r: int, c: int, w: int, h: int)
    requires 0 <= r < h && 0 <= c < w - 1
    ensures var k := r * w + c;
      0 <= k && k + 1 < h * w && CellEdges(k, w + 1, h + 1)[0] == k + 1 && CellEdges(k + 1, w + 1, h + 1)[2] == k
  {
    RowMajor(r, c, w);
    RowMajor(r, c + 1, w);
    RowBound(r, c + 1, w, h);
  }

  /** Cells k and k + w of one column name each other as upper and lower
      neighbours, k being row r, column c of a grid of w x h cells. */
  lemma VerticalPair(r: int, c: int, w: int, h: int)
    requires 0 <= r < h - 1 && 0 <= c < w
    ensures var k := r * w + c;
      0 <= k && k + w < h * w && CellEdges(k, w + 1, h + 1)[1] == k + w && CellEdges(k + w, w + 1, h + 1)[3] == k
  {
    RowMajor(r, c, w);
    RowMajor(r + 1, c, w);
    ShiftRow(r, w);
    RowBound(r + 1, c, w, h);
  }

  /** Cell adjacency is symmetric at the level of CellEdges, on a grid of
      w x h cells. */
  lemma CellSymmetric(k: int, w: int, h: int, m: int)
    requires w >= 1 && h >= 1 && 0 <= k < h * w && 0 <= m < 4
    requires CellEdges(k, w + 1, h + 1)[m] >= 0
    ensures var d := CellEdges(k, w + 1, h + 1)[m];
      d < h * w && CellEdges(d, w + 1, h + 1)[(m + 2) % 4] == k
  {
    Decompose(k, w, h);
    var r, c := k / w, k % w;
    if m == 0 {
      HorizontalPair(r, c, w, h);
    } else if m == 1 {
      VerticalPair(r, c, w, h);
    } else if m == 2 {
      HorizontalPair(r, c - 1, w, h);
      assert r * w + (c - 1) == k - 1;
    } else {
      VerticalPair(r - 1, c, w, h);
      ShiftRow(r - 1, w);
    }
  }

  /** Cell adjacency is symmetric: a right neighbour lists the cell as its left
      neighbour and the other way round, and likewise up and down. */
  lemma GridSymmetric(iMax: int, jMax: int, k: int, m: int)
    requires 0 <= k < CellCount(iMax, jMax) && 0 <= m < 4
    requires Grid(iMax, jMax)[k].edges[m] >= 0
    ensures var d := Grid(iMax, jMax)[k].edges[m];
      d < CellCount(iMax, jMax) && Grid(iMax, jMax)[d].edges[(m + 2) % 4] == k
  {
    CellSymmetric(k, iMax - 1, jMax - 1, m);
  }

  /** The right neighbour of a cell not in the last column has the cell's
      right side as its left side. */
  lemma CellRightSide(k: int, w: int, h: int)
    requires w >= 1 && h >= 1 && 0 <= k < h * w && k % w != w - 1
    ensures k + 1 < h * w
    ensures CellVertices(k + 1, w + 1)[0] == CellVertices(k, w + 1)[3]
    ensures CellVertices(k + 1, w + 1)[1] == CellVertices(k, w + 1)[2]
  {
    Decompose(k, w, h);
    HorizontalPair(k / w, k % w, w, h);
    RowMajor(k / w, k % w + 1, w);
  }

  /** The upper neighbour of a cell not in the last row has the cell's upper
      side as its lower side. */
  lemma CellUpSide(k: int, w: int, h: int)
    requires w >= 1 && h >= 1 && 0 <= k < h * w && k / w != h - 1
    ensures k + w < h * w
    ensures CellVertices(k + w, w + 1)[0] == CellVertices(k, w + 1)[1]
    ensures CellVertices(k + w, w + 1)[3] == CellVertices(k, w + 1)[2]
  {
    Decompose(k, w, h);
    var r, c := k / w, k % w;
    VerticalPair(r, c, w, h);
    RowMajor(r + 1, c, w);
    ShiftRow(r, w);
  }

  /** Neighbouring cells share the edge between them: the right neighbour's
      left side is the cell's right side, and the upper neighbour's lower side
      is the cell's upper side. */
  lemma GridSharedSides(iMax: int, jMax: int, k: int)
    requires 0 <= k < CellCount(iMax, jMax)
    ensures var g := Grid(iMax, jMax); var p := g[k];
      (p.edges[0] >= 0 ==> p.edges[0] < |g| && g[p.edges[0]].vertices[0] == p.vertices[3] && g[p.edges[0]].vertices[1] == p.vertices[2])
      && (p.edges[1] >= 0 ==> p.edges[1] < |g| && g[p.edges[1]].vertices[0] == p.vertices[1] && g[p.edges[1]].vertices[3] == p.vertices[2])
  {
    var w, h := iMax - 1, jMax - 1;
    CellEdgesBorder(k, w, h);
    if k % w != w - 1 {
      CellRightSide(k, w, h);
    }
    if k / w != h - 1 {
      CellUpSide(k, w, h);
    }
  }

  /** On a 3 x 3 grid of points (four cells), the code's up entry of cell 1 is
      4, past the last cell, and cell 0's up entry names cell 3, which shares
      only one corner with it; the intended upper neighbour of cell 0 is cell 2. */
  lemma WrittenUpNeighbourWrong()
    ensures CellCount(3, 3) == 4
    ensures WrittenCellEdges(1, 3, 3)[1] == 4
    ensures WrittenCellEdges(0, 3, 3)[1] == 3 && CellVertices(3, 3) == [4, 7, 8, 5] && CellVertices(0, 3) == [0, 3, 4, 1]
    ensures CellEdges(0, 3, 3)[1] == 2 && CellVertices(2, 3) == [3, 6, 7, 4]
  {
  }

  // ------------------------------------------------------------ relaxation

  /** The metric terms alpha, beta and gamma of one interior point. */
  datatype Metric = Metric(alpha: real, beta: real, gamma: real)

  /** Metric terms and spacings the weights can be computed from: every
      divisor of the computation is non-zero. */
  predicate Admissible(m: Metric, dXi: real, dEta: real) {
    dXi != 0.0 && dEta != 0.0 && 2.0 * (m.alpha / (dXi * dXi)) + 2.0 * (m.gamma / (dEta * dEta)) != 0.0
  }

  /** The eight stencil weights of an interior point, for its neighbours in the
      order lower-left, lower, lower-right, left, right, upper-left, upper,
      upper-right. The weights are point-symmetric: opposite neighbours get the
      same weight, and the two diagonals get opposite weights. */
  function GetCoeff(m: Metric, dXi: real, dEta: real): (c: seq<real>)
    requires Admissible(m, dXi, dEta)
    ensures |c| == 8
    ensures c[4] == c[3] && c[5] == c[2] && c[6] == c[1] && c[7] == c[0] && c[2] == -c[0]
  {
    var mult := 1.0 / (2.0 * (m.alpha / (dXi * dXi)) + 2.0 * (m.gamma / (dEta * dEta)));
    var a1 := -(mult * m.beta) / (2.0 * dXi * dEta);
    var a2 := (mult * m.gamma) / (dEta * dEta);
    var a3 := (mult * m.beta) / (2.0 * dXi * dEta);
    var a4 := (mult * m.alpha) / (dXi * dXi);
    var a5 := a4;
    var a6 := a3;
    var a7 := a2;
    var a8 := a1;
    [a1, a2, a3, a4, a5, a6, a7, a8]
  }

  /** Point k of an iMax x jMax grid is off the border: neither in the first
      or last column nor in the first or last row. */
  predicate Interior(k: int, iMax: int, jMax: int)
    requires iMax >= 1
  {
    k % iMax != 0 && k % iMax != iMax - 1 && k / iMax != 0 && k / iMax != jMax - 1
  }

  /** All eight neighbours of an interior point lie in the grid. */
  lemma InteriorStencil(k: int, iMax: int, jMax: int)
    requires iMax >= 1 && 0 <= k < iMax * jMax && Interior(k, iMax, jMax)
    ensures 0 <= k - 1 - iMax && k + 1 + iMax < iMax * jMax
  {
    Decompose(k, iMax, jMax);
    var r, c := k / iMax, k % iMax;
    assert k == r * iMax + c;
    RowBound(r + 1, c + 1, iMax, jMax);
    assert k + 1 + iMax == (r + 1) * iMax + (c + 1);
  }

  function Abs(x: real): real {
    if x < 0.0 then -x else x
  }

  function Max(a: real, b: real): real {
    if a >= b then a else b
  }

  /** The weighted sum of the eight neighbours of point k. */
  function Relax(pts: seq<Node>, k: int, iMax: int, c: seq<real>): Node
    requires iMax >= 1 && 0 <= k - 1 - iMax && k + 1 + iMax < |pts| && |c| == 8
  {
    Node(c[0] * pts[k - 1 - iMax].x + c[1] * pts[k - iMax].x + c[2] * pts[k + 1 - iMax].x
         + c[3] * pts[k - 1].x + c[4] * pts[k + 1].x
         + c[5] * pts[k - 1 + iMax].x + c[6] * pts[k + iMax].x + c[7] * pts[k + 1 + iMax].x,
         c[0] * pts[k - 1 - iMax].y + c[1] * pts[k - iMax].y + c[2] * pts[k + 1 - iMax].y
         + c[3] * pts[k - 1].y + c[4] * pts[k + 1].y
         + c[5] * pts[k - 1 + iMax].y + c[6] * pts[k + iMax].y + c[7] * pts[k + 1 + iMax].y)
  }

  /** The grid points and the largest change seen so far, as a sweep carries
      them along. */
  datatype Relaxation = Relaxation(points: seq<Node>, maxChange: real)

  /** The parameters of one sweep: the grid spacings and the metric terms of
      each point, computed from the current points. */
  datatype Sweeper = Sweeper(iMax: int, jMax: int, dXi: real, dEta: real, metric: (seq<Node>, int) -> Metric)

  ghost predicate SweeperOk(s: Sweeper) {
    s.iMax >= 1 && s.jMax >= 1
    && forall pts: seq<Node>, k: int :: Admissible(s.metric(pts, k), s.dXi, s.dEta)
  }

  /** The state after the sweep has visited points 0 .. n - 1, starting from
      points pts and largest change maxChange: each interior point in turn is
      replaced by the weighted sum of its neighbours' current values. */
  function Sweep(s: Sweeper, pts: seq<Node>, maxChange: real, n: int): (r: Relaxation)
    requires SweeperOk(s) && |pts| == s.iMax * s.jMax && 0 <= n <= |pts|
    ensures |r.points| == |pts|
  {
    if n == 0 then Relaxation(pts, maxChange)
    else
      var r := Sweep(s, pts, maxChange, n - 1);
      var k := n - 1;
      if Interior(k, s.iMax, s.jMax) then Update(s, r, k) else r
  }

  /** Point k replaced by the weighted sum of its neighbours, and the largest
      change grown to cover the change of point k. Nothing else changes. */
  function Update(s: Sweeper, r: Relaxation, k: int): (r': Relaxation)
    requires SweeperOk(s) && |r.points| == s.iMax * s.jMax && 0 <= k < |r.points| && Interior(k, s.iMax, s.jMax)
    ensures |r'.points| == |r.points| && r'.maxChange >= r.maxChange
    ensures forall j | 0 <= j < |r.points| && j != k :: r'.points[j] == r.points[j]
    ensures r'.maxChange >= Abs(r'.points[k].x - r.points[k].x) && r'.maxChange >= Abs(r'.points[k].y - r.points[k].y)
  {
    InteriorStencil(k, s.iMax, s.jMax);
    var p := Relax(r.points, k, s.iMax, GetCoeff(s.metric(r.points, k), s.dXi, s.dEta));
    Relaxation(r.points[k := p], Max(r.maxChange, Max(Abs(p.x - r.points[k].x), Abs(p.y - r.points[k].y))))
  }

  /** The sweep writes only interior points, and only those it has visited:
      after n points every other point still has its value from before. */
  lemma {:induction false} SweepFrame(s: Sweeper, pts: seq<Node>, maxChange: real, n: int)
    requires SweeperOk(s) && |pts| == s.iMax * s.jMax && 0 <= n <= |pts|
    ensures forall k | 0 <= k < |pts| && (n <= k || !Interior(k, s.iMax, s.jMax)) ::
      Sweep(s, pts, maxChange, n).points[k] == pts[k]
  {
    if n > 0 {
      SweepFrame(s, pts, maxChange, n - 1);
    }
  }

  /** One update keeps every point's change covered: the updated point's
      own change, when it still had its value from pts, and every other
      point's, since the largest change only grows. */
  lemma UpdateCovers(s: Sweeper, r: Relaxation, k: int, pts: seq<Node>, j: int)
    requires SweeperOk(s) && |r.points| == s.iMax * s.jMax == |pts|
    requires 0 <= k < |pts| && Interior(k, s.iMax, s.jMax) && 0 <= j < |pts|
    requires j == k ==> r.points[k] == pts[k]
    requires j != k ==> Covered(r, pts, j)
    ensures Covered(Update(s, r, k), pts, j)
  {
  }

  /** The largest change never decreases, and after n points it bounds the
      change of every interior point visited, measured against the point's
      value before the sweep. */
  lemma {:induction false} SweepMaxChange(s: Sweeper, pts: seq<Node>, maxChange: real, n: int)
    requires SweeperOk(s) && |pts| == s.iMax * s.jMax && 0 <= n <= |pts|
    ensures Sweep(s, pts, maxChange, n).maxChange >= maxChange
    ensures forall k | 0 <= k < n && Interior(k, s.iMax, s.jMax) ::
      Covered(Sweep(s, pts, maxChange, n), pts, k)
  {
    if n > 0 {
      SweepMaxChange(s, pts, maxChange, n - 1);
      var r := Sweep(s, pts, maxChange, n - 1);
      var k := n - 1;
      if Interior(k, s.iMax, s.jMax) {
        SweepFrame(s, pts, maxChange, n - 1);
        forall j | 0 <= j < n && Interior(j, s.iMax, s.jMax)
          ensures Covered(Sweep(s, pts, maxChange, n), pts, j)
        {
          UpdateCovers(s, r, k, pts, j);
        }
      }
    }
  }

  /** After the whole sweep: the largest change has not decreased, boundary
      points are untouched, and every interior point's change is covered. */
  lemma SweepSummary(s: Sweeper, pts: seq<Node>, maxChange: real)
    requires SweeperOk(s) && |pts| == s.iMax * s.jMax
    ensures var r := Sweep(s, pts, maxChange, |pts|);
      r.maxChange >= maxChange
      && (forall k | 0 <= k < |pts| && !Interior(k, s.iMax, s.jMax) :: r.points[k] == pts[k])
      && (forall k | 0 <= k < |pts| && Interior(k, s.iMax, s.jMax) ::
            r.maxChange >= Abs(r.points[k].x - pts[k].x) && r.maxChange >= Abs(r.points[k].y - pts[k].y))
  {
    SweepFrame(s, pts, maxChange, |pts|);
    SweepMaxChange(s, pts, maxChange, |pts|);
    var r := Sweep(s, pts, maxChange, |pts|);
    assert forall k | 0 <= k < |pts| && Interior(k, s.iMax, s.jMax) :: Covered(r, pts, k);
  }

  /** The largest change recorded in r covers the change of point k from its
      value in pts. */
  predicate Covered(r: Relaxation, pts: seq<Node>, k: int)
    requires 0 <= k < |r.points| && k < |pts|
  {
    r.maxChange >= Abs(r.points[k].x - pts[k].x) && r.maxChange >= Abs(r.points[k].y - pts[k].y)
  }

  // ------------------------------------------------------------------ grid

  class Rectangular {
    const iMax: int
    const jMax: int
    const N: int
    var points: seq<Node>
    var rectangles: seq<Polygon>

    predicate Valid() {
      iMax >= 1 && jMax >= 1 && N == iMax * jMax
    }

    /** A grid of iMax x jMax points with no points and no cells yet. */
    constructor (iMax: int, jMax: int)
      requires iMax >= 1 && jMax >= 1
      ensures Valid() && this.iMax == iMax && this.jMax == jMax
      ensures points == [] && rectangles == []
    {
      this.iMax := iMax;
      this.jMax := jMax;
      N := iMax * jMax;
      points := [];
      rectangles := [];
    }

    /** Appends the N points of the grid, row by row, point k at column
        k % iMax and row k / iMax. */
    method CreatePoints()
      requires Valid()
      modifies this
      ensures rectangles == old(rectangles)
      ensures points == old(points) + GridPoints(N, iMax)
    {
      var i := 0;
      while i < N
        invariant 0 <= i <= N && rectangles == old(rectangles)
        invariant points == old(points) + GridPoints(i, iMax)
      {
        points := points + [Node((i % iMax) as real, (i / iMax) as real)];
        i := i + 1;
      }
    }

    /** Builds the cells row by row, then fills in their neighbours. */
    method CreateRectangles()
      requires Valid() && rectangles == []
      modifies this
      ensures points == old(points)
      ensures rectangles == Grid(iMax, jMax)
    {
      AppendCells();
      LinkCells();
    }

    /** The first pass: one cell per pair of adjacent rows and columns, with
        its four vertices and no neighbours yet. */
    method AppendCells()
      requires Valid() && rectangles == []
      modifies this
      ensures points == old(points)
      ensures |rectangles| == CellCount(iMax, jMax)
      ensures forall k | 0 <= k < |rectangles| ::
        iMax >= 2 && rectangles[k] == Polygon(CellVertices(k, iMax), [-1, -1, -1, -1])
    {
      var w := iMax - 1;
      var i := 0;
      while i < jMax - 1
        invariant 0 <= i <= jMax - 1 && points == old(points)
        invariant |rectangles| == i * w
        invariant forall k | 0 <= k < |rectangles| ::
          iMax >= 2 && rectangles[k] == Polygon(CellVertices(k, iMax), [-1, -1, -1, -1])
      {
        var j := 0;
        while j < w
          invariant 0 <= j <= w && points == old(points)
          invariant |rectangles| == i * w + j
          invariant forall k | 0 <= k < |rectangles| ::
            iMax >= 2 && rectangles[k] == Polygon(CellVertices(k, iMax), [-1, -1, -1, -1])
        {
          var newRect := NewRectangle();
          newRect := newRect.(vertices := [i * iMax + j, (i + 1) * iMax + j, (i + 1) * iMax + (j + 1), i * iMax + (j + 1)]);
          RowMajor(i, j, w);
          rectangles := rectangles + [newRect];
          j := j + 1;
        }
        i := i + 1;
      }
      if iMax >= 2 && jMax >= 2 {
        assert |rectangles| == (iMax - 1) * (jMax - 1);
      }
    }

    /** The second pass: each cell's neighbours right, up, left and down,
        cleared to -1 on the matching border. */
    method LinkCells()
      requires Valid()
      requires |rectangles| == CellCount(iMax, jMax)
      requires forall k | 0 <= k < |rectangles| ::
        iMax >= 2 && rectangles[k] == Polygon(CellVertices(k, iMax), [-1, -1, -1, -1])
      modifies this
      ensures points == old(points)
      ensures rectangles == Grid(iMax, jMax)
    {
      var n := |rectangles|;
      var i := 0;
      while i < n
        invariant 0 <= i <= n == |rectangles| && points == old(points)
        invariant forall k | 0 <= k < i :: iMax >= 2 && rectangles[k] == Polygon(CellVertices(k, iMax), CellEdges(k, iMax, jMax))
        invariant forall k | i <= k < n :: iMax >= 2 && rectangles[k] == Polygon(CellVertices(k, iMax), [-1, -1, -1, -1])
      {
        var e := [i + 1, i + (iMax - 1), i - 1, i - (iMax - 1)];
        if i % (iMax - 1) == iMax - 2 {
          e := e[0 := -1];
        }
        if i / (iMax - 1) == jMax - 2 {
          e := e[1 := -1];
        }
        if i % (iMax - 1) == 0 {
          e := e[2 := -1];
        }
        if i / (iMax - 1) == 0 {
          e := e[3 := -1];
        }
        assert e == CellEdges(i, iMax, jMax);
        rectangles := rectangles[i := rectangles[i].(edges := e)];
        i := i + 1;
      }
    }

    /** One sweep over the grid in index order: every interior point is
        replaced by the weighted sum of its eight neighbours' current values,
        and maxChange grows to cover the change of each point. */
    method EnforceICs(dXi: real, dEta: real, metric: (seq<Node>, int) -> Metric, maxChange0: real)
      returns (maxChange: real)
      requires Valid() && |points| == N
      requires SweeperOk(Sweeper(iMax, jMax, dXi, dEta, metric))
      modifies this
      ensures rectangles == old(rectangles)
      ensures Relaxation(points, maxChange) == Sweep(Sweeper(iMax, jMax, dXi, dEta, metric), old(points), maxChange0, N)
      ensures maxChange >= maxChange0
      ensures forall k | 0 <= k < N && !Interior(k, iMax, jMax) :: points[k] == old(points)[k]
      ensures forall k | 0 <= k < N && Interior(k, iMax, jMax) ::
        maxChange >= Abs(points[k].x - old(points)[k].x) && maxChange >= Abs(points[k].y - old(points)[k].y)
    {
      ghost var s := Sweeper(iMax, jMax, dXi, dEta, metric);
      maxChange := maxChange0;
      var i := 0;
      while i < N
        invariant 0 <= i <= N && rectangles == old(rectangles) && |points| == N
        invariant Relaxation(points, maxChange) == Sweep(s, old(points), maxChange0, i)
      {
        if i % iMax != 0 && i % iMax != iMax - 1 && i / iMax != 0 && i / iMax != jMax - 1 {
          maxChange := RelaxPoint(dXi, dEta, metric, i, maxChange);
        }
        i := i + 1;
      }
      SweepSummary(s, old(points), maxChange0);
    }

    /** The loop body of EnforceICs at an interior point i. */
    method RelaxPoint(dXi: real, dEta: real, metric: (seq<Node>, int) -> Metric, i: int, maxChange: real)
      returns (maxChange': real)
      requires Valid() && |points| == N && 0 <= i < N && Interior(i, iMax, jMax)
      requires SweeperOk(Sweeper(iMax, jMax, dXi, dEta, metric))
      modifies this
      ensures rectangles == old(rectangles)
      ensures Relaxation(points, maxChange') == Update(Sweeper(iMax, jMax, dXi, dEta, metric), Relaxation(old(points), maxChange), i)
    {
      InteriorStencil(i, iMax, jMax);
      var coeff := GetCoeff(metric(points, i), dXi, dEta);
      var newP := Relax(points, i, iMax, coeff);
      maxChange' := Max(maxChange, Max(Abs(newP.x - points[i].x), Abs(newP.y - points[i].y)));
      points := points[i := newP];
    }
  }
}
