# grid_generator: a verified model of the mesh connectivity

grid_generator builds two kinds of two-dimensional meshes:

- an unstructured Delaunay triangulation of a point cloud, built by incremental insertion (`Triangular`);
- a structured body-fitted quadrilateral grid, smoothed by Gauss-Seidel relaxation of an elliptic system (`Rectangular`).

This project models the integer skeleton of both generators in Dafny and proves it correct: index arithmetic, neighbour lists with -1 sentinels, and in-place updates of record arrays. Coordinates are `real`s. The program's single-precision rounding is not modelled.

## Modules

- `Geometry` (`geometry.dfy`): the point type `Node` with `+`, `-`, `dot` and `cross`, and the `Polygon` connectivity record.
  - A record holds vertex indices and neighbour indices.
  - Its constructor `Polygon(n, val)` sizes both lists to n and fills the neighbours with val.
- `Mesh` (`mesh.dfy`): the invariant of the triangle list while the triangulation is built.
  - Slot k of a triangle lies across the edge from `vertices[k]` to `vertices[(k + 1) % 3]`. This is the convention the code follows at `src/triangular.cpp:146-151` and `179-205`. The comments at `src/triangular.cpp:152` and `206` describe slot 1 of a record that starts at the inserted point as lying opposite that point, that is across the edge from `vertices[1]` to `vertices[2]`.
  - `MeshInv` holds when every record has three distinct vertices in range, and no neighbour is listed twice.
  - It also requires every neighbour to list the record back across the same edge walked the other way.
  - Finally, a missing neighbour (-1) only occurs along an edge of the enclosing supertriangle.
- `Insertion` (`insertion.dfy`):
  - the point-in-triangle test;
  - `Split`, the list that results from splitting triangle T around an inserted point i;
  - the proof that a split keeps `MeshInv`.
- `Legalization` (`legalization.dfy`):
  - the Delaunay swap test on a quadrilateral, with its sign cases and invariances;
  - `Flip`, the list after the diagonal of the quadrilateral L/R is swapped;
  - the proof that a flip keeps `MeshInv`.
- `Cleanup` (`cleanup.dfy`): `Compact`, the list after the supertriangle is removed.
  - Triangles with a synthetic vertex are dropped, and the kept ones keep their order.
  - Neighbour indices are renumbered.
  - The result is proved to be a linked mesh over the real points.
- `BinSorting` (`binsort.dfy`):
  - the serpentine bin numbering;
  - the insertion sort `SortByBin` as a function on (bin, point) pairs, proved sorted, a permutation and stable.
- `Delaunay` (`delaunay.dfy`): the class `Triangular`, whose methods update `points` and `triangles` in place as the program does.
  - `Edge`, `BinSort`, `CreateNewTriangles`, `EmptyStack` and `RemoveSuperTriangle`, with their loops.
  - The fixed-size triangle stack is an `array<int>` with a top-of-stack index.
  - `BinSort`, `CreateNewTriangles`, `SwapDiagonal` and `RemoveSuperTriangle` are each proved to produce exactly the list computed by a specification function of the modules above (`SortByBin`, `Split`, `Flip`, `Compact`).
  - The legalization is specified on values by `LegalizeStep` (one pop, test, flip and push) and `LegalizeRun` (the loop). `LegalizeTop` and `EmptyStack` are proved to end in the triangle list, stack and status these functions compute.
- `Structured` (`rectangular.dfy`): the class `Rectangular`.
  - `CreatePoints` lays the points out row-major.
  - `CreateRectangles` builds the quadrilateral cells and their right/up/left/down neighbours.
  - `EnforceICs` performs one relaxation sweep. It is proved equal to the function `Sweep`, which overwrites interior points only and never lowers `maxChange`.
  - The metric terms alpha, beta and gamma come from a function parameter `metric`, because their finite-difference formulas are not modelled.

## Model

| member | source | states |
|---|---|---|
| Geometry.AddSubInverse | src/geometry.h:18-24 | `+` and `-` act coordinate by coordinate, `-` undoes `+`, and `+` is commutative |
| Geometry.DotSymmetric | src/geometry.h:26-28 | `a.dot(b) == b.dot(a)` |
| Geometry.CrossAntisymmetric | src/geometry.h:30-32 | `a.cross(b) == -(b.cross(a))` and `a.cross(a) == 0` |
| Geometry.DifferenceTranslationInvariant | src/geometry.h:18-24 | translating both points leaves their difference unchanged, so edge vectors do not depend on the origin |
| Geometry.NewPolygon | src/geometry.h:39-42 | `Polygon(n, val)` has n vertex entries, all 0 (value-initialised), and n neighbour entries, all equal to val |
| Geometry.NewTriangle | src/triangular.h:7 | a fresh triangle has 3 vertices and neighbours (-1, -1, -1) |
| Geometry.NewRectangle | src/rectangular.h:11 | a fresh rectangle has 4 vertices and neighbours (-1, -1, -1, -1) |
| Mesh.Relink | src/triangular.cpp:142-144 | replacing the neighbour entry found by `edge(A, T)` keeps the record's shape and vertices |
| Mesh.RelinkSlotOf | src/triangular.cpp:142-144 | after a relink, looking up any other index gives the same slot as before |
| Mesh.RelinkSlotOfNew | src/triangular.cpp:183-185 | after relinking K to a new index V, V is found in the slot where K was |
| Mesh.LinkedSymmetric | src/triangular.cpp:142-144 | in a linked mesh, a neighbour u of t is another record that lists t back exactly once, so `edge(u, t)` used as an index finds t |
| Insertion.PointWithinTriangleCount | src/triangular.cpp:80-90 | the test accepts iff at most one of S1, S2, S3 is non-negative and all three are below 1e-10 |
| Insertion.PointWithinTriangleRotation | src/triangular.cpp:80-90 | the verdict does not depend on which edge is numbered first |
| Insertion.SplitRecords | src/triangular.cpp:134-151 | the split turns T into (i, v0, v1) and appends (i, v1, v2) and (i, v2, v0). The three name each other, B and C are relinked to the new records, and every other record is unchanged |
| Insertion.SplitUnique | src/triangular.cpp:134-151 | any list having the records of a split equals `Split`, so the record-by-record description is complete |
| Insertion.SplitShape | src/triangular.cpp:134-151 | all three triangles start at i, their other vertices are T's three as a multiset, they are mutually adjacent, and T's outer neighbours stay on the outer edges |
| Insertion.MeshInvSplitSafe | src/triangular.cpp:139-144 | in a valid mesh every neighbour of T lists T back, so the three `edge(X, T)` lookups succeed |
| Insertion.SplitPreservesMesh | src/triangular.cpp:132-156 | splitting at a real point that is not a vertex of T keeps `MeshInv`: adjacency stays symmetric and in range, and only supertriangle edges lack a neighbour |
| Insertion.SplitTouchesReal | src/triangular.cpp:132-156 | after a split, every triangle has at least one real vertex |
| Legalization.DelaunaySignCases | src/triangular.cpp:67-71 | two non-negative cosine terms never swap, and two negative ones always swap |
| Legalization.DelaunaySymmetric | src/triangular.cpp:67-78 | the verdict is the same seen from either triangle of the quadrilateral |
| Legalization.DelaunayScaleInvariant | src/triangular.cpp:67-78 | scaling all four points by s > 0 does not change the verdict |
| Legalization.DelaunayTranslateInvariant | src/triangular.cpp:67-78 | translating all four points does not change the verdict |
| Legalization.DelaunayNormalizationInvariant | src/triangular.cpp:14-19 | the test gives the same verdict on points mapped to the unit square by `(p - min) / dmax` as on the input points |
| Legalization.Normalized | src/triangular.cpp:16-27 | denormalizing (`* dmax + min`) a normalized point gives the point back |
| Legalization.FlipRecords | src/triangular.cpp:179-205 | the flip changes only L, R, A and C. L becomes (i, a, opp) with neighbours (E, A, R), R becomes (i, opp, b) with neighbours (L, D, C), A is relinked from R to L and C from L to R |
| Legalization.FlipUnique | src/triangular.cpp:179-205 | any list having the records of a flip equals `Flip` |
| Legalization.FlipFacts | src/triangular.cpp:163-185 | for a flip on a valid mesh: the shared edge is a-b in both records, the records around the quadrilateral are distinct, and A and C do not yet list L and R |
| Legalization.FlipShape | src/triangular.cpp:186-205 | after the flip, `L.vertices == [i, a, oppVert]`, R starts at i followed by oppVert, L and R name each other across the new diagonal, and the quadrilateral's four corners are kept |
| Legalization.FlipKeepsVertices | src/triangular.cpp:179-205 | records other than L and R keep their vertices, and a set middle neighbour stays set |
| Legalization.FlipPreservesMesh | src/triangular.cpp:176-205 | flipping on a valid mesh keeps `MeshInv`, and every triangle still has a real vertex |
| Cleanup.RemovedBefore | src/triangular.cpp:219-226 | the count of dropped triangles before index u, the value stored in `renumberAdj[u]`, is at most u |
| Cleanup.NewIndex | src/triangular.cpp:219-226 | a kept triangle's new index lies between 0 and its old index |
| Cleanup.Kept | src/triangular.cpp:228-240 | the kept indices number `nT_final`, and each names a triangle with no supertriangle vertex |
| Cleanup.KeptIndicesSpec | src/triangular.cpp:228-240 | the kept indices are exactly the triangles without a synthetic vertex, strictly increasing (original order kept), and kept triangle u sits at position `u - renumberAdj[u]` |
| Cleanup.KeptAt | src/triangular.cpp:230-240 | kept triangle u is copied to position `index == NewIndex(u)` of the new list |
| Cleanup.NewIndexMonotone | src/triangular.cpp:219-226 | new indices strictly increase along kept triangles, so no two share a position |
| Cleanup.Masked | src/triangular.cpp:233-238 | the copied record keeps its vertices, and each neighbour entry is -1 where `removeEdge` is set |
| Cleanup.MaskedRenumbers | src/triangular.cpp:241-245 | subtracting `renumberAdj` from a set entry of the copy gives the renumbered entry, and -1 stays -1 |
| Cleanup.CompactAt | src/triangular.cpp:228-248 | the new list has `nT_final` records, and kept triangle u is at its new index with its neighbours renumbered |
| Cleanup.MeshInvCleanupSafe | src/triangular.cpp:235-237 | in a valid mesh a kept triangle has no -1 neighbour, so `removeEdge[edges[k]]` is always in range |
| Cleanup.RenumberFacts | src/triangular.cpp:241-245 | a renumbered entry is -1 (neighbour removed) or in [0, nT_final), and renumbering is injective on kept neighbours |
| Cleanup.RenumberedSlotOf | src/triangular.cpp:241-245 | a kept neighbour lists the kept triangle under its new index, in the same slot as before |
| Cleanup.CompactMirrors | src/triangular.cpp:241-248 | kept neighbours still list each other after renumbering |
| Cleanup.CompactLinked | src/triangular.cpp:213-250 | removing the supertriangle from a valid mesh gives a linked mesh over the remaining points: vertices in range and distinct, neighbours -1 or in range, and adjacency symmetric |
| BinSorting.BinKeyRange | src/triangular.cpp:37-40 | the keys of row p lie in [p*n + 1, (p+1)*n] |
| BinSorting.BinKeyInjective | src/triangular.cpp:37-40 | different bins get different keys |
| BinSorting.BinKeySerpentine | src/triangular.cpp:37-40 | consecutive keys belong to bins that share a side: the next one in the same row, or the one straight above |
| BinSorting.SortByBinStep | src/triangular.cpp:44-55 | pass i of the sort inserts element i into the sorted prefix of length i |
| BinSorting.InsertAt | src/triangular.cpp:47-54 | one pass places the key after the last smaller-or-equal key and shifts the larger ones right |
| BinSorting.InsertAtIndex | src/triangular.cpp:47-54 | the same placement, position by position |
| BinSorting.InsertPermutes | src/triangular.cpp:44-55 | one pass adds exactly the new element |
| BinSorting.InsertSorted | src/triangular.cpp:44-55 | one pass keeps the prefix sorted |
| BinSorting.InsertStable | src/triangular.cpp:48 | one pass keeps equal keys in order, because the comparison `bins[j] > key` is strict |
| BinSorting.SortByBinSorted | src/triangular.cpp:43-55 | the sorted bin numbers are non-decreasing |
| BinSorting.SortByBinPermutes | src/triangular.cpp:43-55 | points and bin numbers are permuted together, and none is lost or duplicated |
| BinSorting.SortByBinStable | src/triangular.cpp:43-55 | the points of each bin keep their input order |
| Delaunay.Open | src/triangular.cpp:153-155 | a guarded push adds t exactly when `edges[1] >= 0` |
| Delaunay.StackPop | src/triangular.cpp:160 | popping keeps the stack well formed, and the popped record is not left below |
| Delaunay.StackPush | src/triangular.cpp:207-208 | a guarded push of a record that starts at i and is not on the stack keeps it well formed |
| Delaunay.FlipKeepsStack | src/triangular.cpp:206-208 | a flip keeps the rest of the stack valid, and both L and R then start at i |
| Delaunay.FlipReadySwap | src/triangular.cpp:163-185 | when a flip is due, the opposite vertex and its slot are where the rewiring reads them |
| Delaunay.SplitInStages | src/triangular.cpp:134-151 | performing the split in the code's order (append, relink B and C, set the new neighbours, rotate T) gives `Split` |
| Delaunay.Cleared | src/triangular.cpp:235-237 | `(1 - removed) * e - removed` is -1 for a removed neighbour and e otherwise |
| Delaunay.TopReady | src/triangular.cpp:160-174 | in a valid mesh the record on top of the stack has a middle neighbour that lists it back, and every point the swap test reads is in range |
| Delaunay.LegalizeStep | src/triangular.cpp:159-208 | one round pops the top record, leaves the stack below it untouched, ends `Done`, `Degenerate` or `StackFull`, and either keeps the list or flips the popped record |
| Delaunay.LegalizeStepKeeps | src/triangular.cpp:159-208 | a round keeps the mesh valid, every triangle touching a real point, and the stack well formed and within the array |
| Delaunay.LegalizeRun | src/triangular.cpp:158-211 | the loop keeps the mesh and stack valid; it ends `Done` only with an empty stack, and `OutOfFuel` only with work left |
| Delaunay.Triangular.constructor | src/triangular.h:14 | a triangulator holds the given points and no triangles |
| Delaunay.Triangular.Edge | src/triangular.cpp:58-65 | returns the first slot m with `edges[m] == K`, and -1 exactly when K is not a neighbour |
| Delaunay.Triangular.BinSort | src/triangular.cpp:43-55 | the in-place sort of bins and points together leaves the pairs equal to `SortByBin` of the input pairs, so they are sorted, permuted and stable by the lemmas above |
| Delaunay.Triangular.InsertNext | src/triangular.cpp:45-54 | one pass of the shifting loop turns the sorted prefix into `Insert(prefix, x)` and leaves the rest alone |
| Delaunay.Triangular.CreateNewTriangles | src/triangular.cpp:132-156 | the list becomes `Split(old, T, i)`, and the stack grows by exactly those of T, ntri-2, ntri-1 whose `edges[1] >= 0`, in that order (at most 3) |
| Delaunay.Triangular.PushAround | src/triangular.cpp:153-155 | the three guarded pushes add `Open(T) + Open(ntri-2) + Open(ntri-1)` and leave the stack above unchanged |
| Delaunay.Triangular.SplitTriangle | src/triangular.cpp:134-151 | the in-place updates produce `Split(old, T, i)` |
| Delaunay.Triangular.AppendAround | src/triangular.cpp:134-137 | resizing appends the two new records with vertices (i, v1, v2) and (i, v2, v0) |
| Delaunay.Triangular.LinkAround | src/triangular.cpp:146-151 | the two new records and T get their neighbour lists, and T its rotated vertices |
| Delaunay.Triangular.OppositeVertex | src/triangular.cpp:163-172 | the search finds R's vertex off the shared edge and its slot, just before the slot of L in R |
| Delaunay.Triangular.SwapDiagonal | src/triangular.cpp:179-205 | the in-place rewiring of L, R, A and C, including the rotation of R, produces `Flip(old, L, i)` |
| Delaunay.Triangular.RewireRight | src/triangular.cpp:186-200 | only R changes: it becomes (i, opp, b) with neighbours (L, D, C), having been rotated to start at i |
| Delaunay.Triangular.RewireLeft | src/triangular.cpp:203-205 | only L changes: its third vertex becomes oppVert and its neighbours become (E, A, R) |
| Delaunay.Triangular.EmptyStack | src/triangular.cpp:158-211 | the loop ends in the list, stack and status `LegalizeRun` computes from the old list and stack; the mesh stays valid, every triangle touches a real point, the stack stays valid, and on `Done` it is empty |
| Delaunay.Triangular.LegalizeTop | src/triangular.cpp:159-209 | one round equals `LegalizeStep`: L is popped; when the swap test on L fails the list is kept and nothing is pushed; when it holds the list becomes `Flip(old, L, i)` and L then R are pushed when their `edges[1] >= 0`; `Degenerate` exactly when the test holds and i already shares a triangle with the opposite vertex |
| Delaunay.Triangular.FlipAndPush | src/triangular.cpp:176-208 | the list becomes `Flip(old, L, i)`, then the stack grows by exactly `Open(L)` and `Open(R)`; `StackFull` exactly when R needs a slot and none is left, and then only L was pushed |
| Delaunay.Triangular.RemoveSuperTriangle | src/triangular.cpp:213-250 | the triangle list becomes `Compact(old, numPoints)`, the last three points are erased, and ntri is the new count |
| Delaunay.Triangular.MarkDoomed | src/triangular.cpp:215-226 | `removeEdge[u]` is set exactly for triangles with a synthetic vertex, `renumberAdj[u]` is the number removed before u, and the result is the kept count |
| Delaunay.Triangular.CopyKept | src/triangular.cpp:229-240 | `trianglesFinal[j]` is the j-th kept triangle with removed neighbours cleared to -1 |
| Delaunay.Triangular.RenumberKept | src/triangular.cpp:241-245 | after subtracting `renumberAdj`, each record is the kept triangle with its neighbours renumbered |
| Delaunay.Triangular.RelinkNeighbour | src/triangular.cpp:142-144 | a guarded `triangles[X].edges[edge(X, K)] = V` changes only record X's slot for K |
| Delaunay.Triangular.PushIfOpen | src/triangular.cpp:153 | a guarded push adds `Open(t)` on top and changes nothing above |
| Structured.GridPointsAt | src/rectangular.cpp:3-7 | the point of row r, column c is at index `r*iMax + c` and has coordinates (c, r) |
| Structured.GridPointsDistinct | src/rectangular.cpp:3-7 | different indices give different points |
| Structured.CornerOffsets | src/rectangular.cpp:227 | a cell's corners are v, v + iMax, v + iMax + 1 and v + 1, all inside the N points |
| Structured.GridVertices | src/rectangular.cpp:224-230 | every cell has four distinct vertices in [0, iMax*jMax) and four neighbour entries |
| Structured.CellEdgesBorder | src/rectangular.cpp:233-238 | each neighbour entry is -1 exactly on the matching border, and otherwise a cell of the grid |
| Structured.GridEdgesBorder | src/rectangular.cpp:232-239 | the same for the list `createRectangles` builds: -1 exactly on the border, and every entry -1 or in range |
| Structured.HorizontalPair | src/rectangular.cpp:233-237 | cells c and c+1 of one row list each other as right and left neighbours |
| Structured.VerticalPair | src/rectangular.cpp:233-238 | cells c and c+(iMax-1) of one column list each other as upper and lower neighbours |
| Structured.CellSymmetric | src/rectangular.cpp:233-238 | if cell c lists d in slot m, then d lists c in slot (m+2)%4 |
| Structured.GridSymmetric | src/rectangular.cpp:232-239 | quadrilateral adjacency is symmetric: slot 0 pairs with slot 2, and slot 1 with slot 3 |
| Structured.CellRightSide | src/rectangular.cpp:227 | the right neighbour's left side is the cell's right side |
| Structured.CellUpSide | src/rectangular.cpp:227 | the upper neighbour's lower side is the cell's upper side |
| Structured.GridSharedSides | src/rectangular.cpp:227-238 | neighbouring cells share the edge between them |
| Structured.WrittenUpNeighbourWrong | src/rectangular.cpp:233 | as written, on a 3 x 3 grid, cell 1's up entry is 4 although there are only 4 cells, and cell 0's is cell 3, which shares one corner with it |
| Structured.GetCoeff | src/rectangular.cpp:153-168 | eight weights with a5 = a4, a6 = a3, a7 = a2, a8 = a1 and a3 = -a1 |
| Structured.InteriorStencil | src/rectangular.cpp:172-191 | all eight neighbours of an interior point are inside the grid |
| Structured.Update | src/rectangular.cpp:173-195 | relaxing point k changes only point k, never lowers maxChange, and makes maxChange cover point k's change |
| Structured.SweepFrame | src/rectangular.cpp:171-172 | the sweep leaves boundary points and not-yet-visited points untouched |
| Structured.UpdateCovers | src/rectangular.cpp:193 | later updates keep earlier changes covered, because maxChange only grows |
| Structured.SweepMaxChange | src/rectangular.cpp:193 | maxChange never decreases and covers the change of every interior point visited |
| Structured.SweepSummary | src/rectangular.cpp:170-198 | after the sweep, boundary points are unchanged and maxChange is at least its initial value and every interior point's change |
| Structured.Rectangular.constructor | src/rectangular.h:17 | the grid has `N == iMax * jMax` and no points or cells yet |
| Structured.Rectangular.CreatePoints | src/rectangular.cpp:3-7 | appends the N grid points, point k at `(k % iMax, k / iMax)` |
| Structured.Rectangular.CreateRectangles | src/rectangular.cpp:223-240 | builds exactly `Grid(iMax, jMax)`, the cells in row-major order with their vertices and neighbours |
| Structured.Rectangular.AppendCells | src/rectangular.cpp:224-230 | the nested loops append (iMax-1)*(jMax-1) cells, cell k with the corners of row k/(iMax-1), column k%(iMax-1) |
| Structured.Rectangular.LinkCells | src/rectangular.cpp:232-239 | the second loop gives every cell its right/up/left/down neighbours, -1 on the border |
| Structured.Rectangular.EnforceICs | src/rectangular.cpp:170-198 | the in-place sweep ends in the state `Sweep` computes: only interior points are overwritten, maxChange never decreases, and it covers every point's change |
| Structured.Rectangular.RelaxPoint | src/rectangular.cpp:173-195 | the body at an interior point performs `Update` |

## Findings

| source | as written | input that shows it | evidently intended | confidence | as-written member | corrected member |
|---|---|---|---|---|---|---|
| src/rectangular.cpp:233 | the up and down neighbours of cell i are `i + 1 + (iMax - 1)` and `i - 1 - (iMax - 1)`, that is i ± iMax | iMax = jMax = 3 (four cells, two per row): cell 1's up entry is 4, past the last cell, and cell 0's up entry is 3, which shares only one corner with it | i ± (iMax - 1), the cells are numbered iMax - 1 per row | high; not executed | Structured.WrittenUpNeighbourWrong (on Structured.WrittenCellEdges) | Structured.GridSymmetric and Structured.GridEdgesBorder (on Structured.CellEdges) |

The model's `LinkCells` and `Grid` use the corrected offsets. The border tests at `src/rectangular.cpp:235-238` count iMax - 1 cells per row, the row width the corrected offsets use.

## Left out

- Input and output, the renderer, and the driver (`main`): file reading and writing, printing, and the window.
- `normalizePoints` and `denormalizePoints` as loops. The model instead proves that the swap test is invariant under the normalization map, and that `Normalized` is undone by denormalization.
- `searchForTriangle`: the geometric walk, whose termination depends on the geometry. The split takes the containing triangle T as a parameter.
- `delaunayTriangulate`, the driver that creates the supertriangle and inserts the points one by one, is not part of this model. Its steps (`CreateNewTriangles`, `EmptyStack`, `RemoveSuperTriangle`) are modelled individually.
- The bin-number computation in `binSort` (`pow`, `ceil` and float-to-int casts). `BinSort` takes the keys as input, and `BinKey` models the serpentine numbering on integer rows and columns.
- Floating point: coordinates are reals, so rounding, overflow and NaN are not modelled.
- `Structured.GetCoeff`: division by zero is excluded by the precondition `Admissible`. The contract states the symmetry of the weights but not that the non-diagonal weights sum to one.
- `clusterPoints`, `transformXY`, `y_S`, `y_N` and `enforceBCs` (trigonometry and float equality on the boundary).
- `dx`, `dy`, `alpha`, `beta` and `gamma`: the finite-difference metric is replaced by the parameter `metric`, a function of the current points and the point index.
- The convergence loop of `gaussSeibel`. One sweep (`enforceICs`) is modelled.
- `Delaunay.Triangular.EmptyStack`: termination of the legalization loop depends on Delaunay geometry.
  - The model bounds the loop with a `fuel` parameter and stops with `OutOfFuel` when it runs out.
  - It proves that the loop ends in the state `LegalizeRun` computes and that the mesh invariants hold, but not that the final triangulation is Delaunay.
- `Delaunay.Triangular.LegalizeTop`: when the swap test asks to flip L but the inserted point and the opposite vertex already share a triangle, the model stops with `Degenerate`.
  - The program has no such check. In that case a flip would create a duplicate edge.
  - For points in general position the geometry rules this case out. The model cannot see that geometry.
- `Delaunay.Triangular.FlipAndPush`: the program writes past the end of the fixed-size stack when it is full, which is undefined behaviour. The model stops with `StackFull` instead.
- `Delaunay.Triangular.CreateNewTriangles` requires room for three more entries on the stack and a triangle T whose neighbours list it back. The latter holds in every valid mesh (`Insertion.MeshInvSplitSafe`).
- `Delaunay.Triangular.RemoveSuperTriangle` requires `CleanupSafe`: every kept triangle has three set neighbours.
  - The program would read `removeEdge[-1]` for a kept triangle with a -1 neighbour.
  - `Cleanup.MeshInvCleanupSafe` proves that every valid mesh meets this requirement.
- `Structured.Rectangular.CreateRectangles` requires an empty cell list. The program appends to whatever list exists, and it calls the method once on a fresh object.
- `Structured.Rectangular.constructor` only initialises the fields. The calls it makes (`createPoints`, `clusterPoints`, `transformXY`, `gaussSeibel`, `createRectangles`) is modelled step by step where it is modelled at all.
