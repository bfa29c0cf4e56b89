/** The final cleanup of the triangulation: every triangle that has a vertex of
    the supertriangle is dropped, the survivors keep their order, and their
    neighbour entries are renumbered to the new positions, -1 where the
    neighbour was dropped. */
module Cleanup {
  import opened Geometry
  import opened Mesh

  predicate AllShaped(tris: seq<Polygon>) {
    forall t | 0 <= t < |tris| :: Shaped(tris[t])
  }

  /** Record p has a vertex of the supertriangle of a point list of length np. */
  predicate Doomed(p: Polygon, np: int)
    requires Shaped(p)
  {
    Synthetic(p.vertices[0], np) || Synthetic(p.vertices[1], np) || Synthetic(p.vertices[2], np)
  }

  /** The number of dropped records among the first u. */
  function RemovedBefore(tris: seq<Polygon>, np: int, u: int): (c: nat)
    requires AllShaped(tris) && 0 <= u <= |tris|
    ensures c <= u
  {
    if u == 0 then 0
    else RemovedBefore(tris, np, u - 1) + (if Doomed(tris[u - 1], np) then 1 else 0)
  }

  /** The position a kept record u takes: the number of kept records before it. */
  function NewIndex(tris: seq<Polygon>, np: int, u: int): (j: int)
    requires AllShaped(tris) && 0 <= u <= |tris|
    ensures 0 <= j <= u
  {
    u - RemovedBefore(tris, np, u)
  }

  /** The indices of the kept records among the first k, in increasing order. */
  function KeptIndices(tris: seq<Polygon>, np: int, k: int): seq<int>
    requires AllShaped(tris) && 0 <= k <= |tris|
  {
    if k == 0 then []
    else KeptIndices(tris, np, k - 1) + (if Doomed(tris[k - 1], np) then [] else [k - 1])
  }

  /** Every kept record lists only records of the list: the cleanup never looks
      up a missing neighbour. */
  predicate CleanupSafe(tris: seq<Polygon>, np: int) {
    AllShaped(tris)
    && forall t, k | 0 <= t < |tris| && 0 <= k < 3 :: !Doomed(tris[t], np) ==> 0 <= tris[t].edges[k] < |tris|
  }

  /** The indices of all kept records, in increasing order. */
  function Kept(tris: seq<Polygon>, np: int): (K: seq<int>)
    requires AllShaped(tris)
    ensures |K| == NewIndex(tris, np, |tris|)
    ensures forall j | 0 <= j < |K| :: 0 <= K[j] < |tris| && !Doomed(tris[K[j]], np)
  {
    KeptIndicesSpec(tris, np, |tris|);
    KeptIndices(tris, np, |tris|)
  }

  /** The neighbour entry e of a kept record once the entries naming dropped
      records are cleared to -1, before the renumbering. */
  function Mask(tris: seq<Polygon>, np: int, e: int): int
    requires AllShaped(tris) && 0 <= e < |tris|
  {
    if Doomed(tris[e], np) then -1 else e
  }

  /** Kept record u with its neighbour entries masked: what the cleanup copies
      into the new list before it renumbers. */
  function Masked(tris: seq<Polygon>, np: int, u: int): (p: Polygon)
    requires CleanupSafe(tris, np) && 0 <= u < |tris| && !Doomed(tris[u], np)
    ensures Shaped(p) && p.vertices == tris[u].vertices
  {
    var e := tris[u].edges;
    Polygon(tris[u].vertices, [Mask(tris, np, e[0]), Mask(tris, np, e[1]), Mask(tris, np, e[2])])
  }

  /** Where the neighbour entry e of a kept record goes. */
  function Renumber(tris: seq<Polygon>, np: int, e: int): int
    requires AllShaped(tris) && 0 <= e < |tris|
  {
    if Doomed(tris[e], np) then -1 else NewIndex(tris, np, e)
  }

  /** Kept record u with its neighbour entries renumbered. */
  function Renumbered(tris: seq<Polygon>, np: int, u: int): (p: Polygon)
    requires CleanupSafe(tris, np) && 0 <= u < |tris| && !Doomed(tris[u], np)
    ensures Shaped(p) && p.vertices == tris[u].vertices
  {
    var e := tris[u].edges;
    Polygon(tris[u].vertices, [Renumber(tris, np, e[0]), Renumber(tris, np, e[1]), Renumber(tris, np, e[2])])
  }

  /** Renumbering a masked entry: a kept neighbour e moves down by the number
      of records dropped before it, and a cleared entry stays -1. */
  lemma MaskedRenumbers(tris: seq<Polygon>, np: int, u: int, k: int)
    requires CleanupSafe(tris, np) && 0 <= u < |tris| && !Doomed(tris[u], np) && 0 <= k < 3
    ensures var e := Masked(tris, np, u).edges[k];
      -1 <= e < |tris| && (e >= 0 ==> !Doomed(tris[e], np))
      && Renumbered(tris, np, u).edges[k] == if e >= 0 then e - RemovedBefore(tris, np, e) else -1
  {
  }

  /** The triangle list after the cleanup. */
  function Compact(tris: seq<Polygon>, np: int): (r: seq<Polygon>)
    requires CleanupSafe(tris, np)
  {
    var K := Kept(tris, np);
    seq(|K|, j requires 0 <= j < |K| => Renumbered(tris, np, K[j]))
  }

  /** The kept indices are exactly the kept records, in their original order,
      and a kept record's new index is its position among them. */
  lemma {:induction false} KeptIndicesSpec(tris: seq<Polygon>, np: int, k: int)
    requires AllShaped(tris) && 0 <= k <= |tris|
    ensures var K := KeptIndices(tris, np, k);
      && |K| == NewIndex(tris, np, k)
      && (forall j | 0 <= j < |K| :: 0 <= K[j] < k && !Doomed(tris[K[j]], np) && NewIndex(tris, np, K[j]) == j)
      && (forall j, j' | 0 <= j < j' < |K| :: K[j] < K[j'])
      && (forall u | 0 <= u < k && !Doomed(tris[u], np) :: NewIndex(tris, np, u) < |K| && K[NewIndex(tris, np, u)] == u)
  {
    if k > 0 {
      KeptIndicesSpec(tris, np, k - 1);
    }
  }

  /** A kept record u is found among the kept indices at its new index. */
  lemma KeptAt(tris: seq<Polygon>, np: int, u: int)
    requires AllShaped(tris) && 0 <= u < |tris| && !Doomed(tris[u], np)
    ensures NewIndex(tris, np, u) < |Kept(tris, np)| && Kept(tris, np)[NewIndex(tris, np, u)] == u
  {
    KeptIndicesSpec(tris, np, |tris|);
  }

  /** Kept records keep their relative order: the renumbering is strictly
      increasing on them, so two kept records never share a new index. */
  lemma {:induction false} NewIndexMonotone(tris: seq<Polygon>, np: int, u: int, v: int)
    requires AllShaped(tris) && 0 <= u < v <= |tris| && !Doomed(tris[u], np)
    ensures NewIndex(tris, np, u) < NewIndex(tris, np, v)
  {
    if v == u + 1 {
    } else {
      NewIndexMonotone(tris, np, u, v - 1);
    }
  }

  /** After the cleanup, record j is the j-th kept record with its neighbours
      renumbered, and a kept record u is found at its new index. */
  lemma CompactAt(tris: seq<Polygon>, np: int, u: int)
    requires CleanupSafe(tris, np) && 0 <= u < |tris| && !Doomed(tris[u], np)
    ensures NewIndex(tris, np, u) < |Compact(tris, np)|
    ensures Compact(tris, np)[NewIndex(tris, np, u)] == Renumbered(tris, np, u)
    ensures |Compact(tris, np)| == NewIndex(tris, np, |tris|)
  {
    KeptIndicesSpec(tris, np, |tris|);
  }

  /** A valid mesh is safe to clean up: a kept triangle has no synthetic vertex,
      so none of its edges lies on the supertriangle and every neighbour is set. */
  lemma MeshInvCleanupSafe(tris: seq<Polygon>, np: int)
    requires MeshInv(tris, np)
    ensures CleanupSafe(tris, np)
  {
    forall t | 0 <= t < |tris|
      ensures Shaped(tris[t])
    {
      assert RecordOk(tris, np, t);
    }
    forall t, k | 0 <= t < |tris| && 0 <= k < 3
      ensures !Doomed(tris[t], np) ==> 0 <= tris[t].edges[k] < |tris|
    {
      assert RecordOk(tris, np, t) && HullOk(tris, np, t);
    }
  }

  /** Renumbered entries are -1 or in range, and equal exactly when the old
      entries named the same kept record. */
  lemma RenumberFacts(tris: seq<Polygon>, np: int, e: int, e': int)
    requires AllShaped(tris) && 0 <= e < |tris| && 0 <= e' < |tris|
    ensures -1 <= Renumber(tris, np, e) < NewIndex(tris, np, |tris|)
    ensures Renumber(tris, np, e) >= 0 ==> !Doomed(tris[e], np)
    ensures Renumber(tris, np, e) >= 0 ==> (Renumber(tris, np, e) == Renumber(tris, np, e') <==> e == e')
  {
    if !Doomed(tris[e], np) {
      NewIndexMonotone(tris, np, e, |tris|);
      if e < e' {
        NewIndexMonotone(tris, np, e, e');
      } else if e' < e && !Doomed(tris[e'], np) {
        NewIndexMonotone(tris, np, e', e);
      }
    }
  }

  /** The cleanup of a valid mesh over np points is a linked mesh over the np - 3
      real points: vertices in range and distinct, neighbours -1 or in range,
      never listed twice, and adjacency symmetric. */
  lemma CompactLinked(tris: seq<Polygon>, np: int)
    requires MeshInv(tris, np)
    ensures CleanupSafe(tris, np) && Linked(Compact(tris, np), np - 3)
  {
    MeshInvCleanupSafe(tris, np);
    var c := Compact(tris, np);
    var nReal := np - 3;
    forall j | 0 <= j < |c|
      ensures RecordOk(c, nReal, j)
    {
      CompactRecordOk(tris, np, j);
    }
  }

  /** One record of the cleaned-up list is well formed. */
  lemma CompactRecordOk(tris: seq<Polygon>, np: int, j: int)
    requires MeshInv(tris, np) && CleanupSafe(tris, np) && 0 <= j < |Compact(tris, np)|
    ensures RecordOk(Compact(tris, np), np - 3, j)
  {
    var c := Compact(tris, np);
    var K := KeptIndices(tris, np, |tris|);
    KeptIndicesSpec(tris, np, |tris|);
    var u := K[j];
    assert c[j] == Renumbered(tris, np, u);
    assert RecordOk(tris, np, u);
    var e := tris[u].edges;
    RenumberFacts(tris, np, e[0], e[1]);
    RenumberFacts(tris, np, e[0], e[2]);
    RenumberFacts(tris, np, e[1], e[2]);
    CompactSlotOk(tris, np, j, 0);
    CompactSlotOk(tris, np, j, 1);
    CompactSlotOk(tris, np, j, 2);
  }

  /** One neighbour slot of one record of the cleaned-up list is well formed. */
  lemma CompactSlotOk(tris: seq<Polygon>, np: int, j: int, k: int)
    requires MeshInv(tris, np) && CleanupSafe(tris, np) && 0 <= j < |Compact(tris, np)| && 0 <= k < 3
    ensures Shaped(Compact(tris, np)[j]) && SlotOk(Compact(tris, np), j, k)
  {
    var c := Compact(tris, np);
    var K := KeptIndices(tris, np, |tris|);
    KeptIndicesSpec(tris, np, |tris|);
    var u := K[j];
    assert c[j] == Renumbered(tris, np, u);
    assert RecordOk(tris, np, u);
    var e := tris[u].edges[k];
    RenumberFacts(tris, np, e, u);
    if Renumber(tris, np, e) >= 0 {
      assert RecordOk(tris, np, e);
      CompactMirrors(tris, np, u, k);
    }
  }

  /** A kept neighbour of a kept record lists it back after the cleanup, at
      its new index, in the slot it used before. */
  lemma CompactMirrors(tris: seq<Polygon>, np: int, u: int, k: int)
    requires CleanupSafe(tris, np) && 0 <= u < |tris| && !Doomed(tris[u], np) && 0 <= k < 3
    requires RecordOk(tris, np, u) && !Doomed(tris[tris[u].edges[k]], np) && RecordOk(tris, np, tris[u].edges[k])
    ensures var c, j := Compact(tris, np), NewIndex(tris, np, u);
      j < |c| && Shaped(c[j]) && SlotOk(c, j, k)
  {
    var c, j := Compact(tris, np), NewIndex(tris, np, u);
    CompactAt(tris, np, u);
    var e := tris[u].edges[k];
    RenumberFacts(tris, np, e, u);
    assert SlotOk(tris, u, k) && Mirrors(tris, u, k);
    var w := NewIndex(tris, np, e);
    CompactAt(tris, np, e);
    RenumberedSlotOf(tris, np, e, u);
    assert c[j].vertices == tris[u].vertices && c[j].edges[k] == w;
    assert c[w].vertices == tris[e].vertices;
  }

  /** A kept record lists kept record u after the cleanup, under u's new index,
      in the slot where it listed u before. */
  lemma RenumberedSlotOf(tris: seq<Polygon>, np: int, e: int, u: int)
    requires CleanupSafe(tris, np) && 0 <= e < |tris| && !Doomed(tris[e], np)
    requires 0 <= u < |tris| && !Doomed(tris[u], np)
    ensures SlotOf(Renumbered(tris, np, e).edges, NewIndex(tris, np, u)) == SlotOf(tris[e].edges, u)
  {
    var f := tris[e].edges;
    RenumberFacts(tris, np, u, f[0]);
    RenumberFacts(tris, np, u, f[1]);
    RenumberFacts(tris, np, u, f[2]);
  }
}
