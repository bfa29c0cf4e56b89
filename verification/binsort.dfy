/** Spatial ordering of the input points before insertion: the unit square is cut
    into n x n bins numbered along a serpentine path, and the points are
    insertion-sorted by bin number so that consecutive points lie close together. */
module BinSorting {
  import opened Geometry

  /** The bin number of row p, column q on an n x n grid: rows run left to right
      when p is even and right to left when p is odd, numbered from 1. */
  function BinKey(p: int, q: int, n: int): int {
    if p % 2 != 0 then (p + 1) * n - q else p * n + q + 1
  }

  /** Row p's bins are numbered p * n + 1 to (p + 1) * n. */
  lemma BinKeyRange(p: nat, q: int, n: int)
    requires 0 <= q < n
    ensures p * n + 1 <= BinKey(p, q, n) <= (p + 1) * n
  {
    assert (p + 1) * n == p * n + n;
  }

  lemma RowsOrdered(p: nat, p': nat, n: nat)
    requires p < p'
    ensures (p + 1) * n <= p' * n
  {
    assert p' * n == (p + 1) * n + (p' - p - 1) * n;
  }

  /** Different bins have different numbers. */
  lemma BinKeyInjective(p: nat, q: int, p': nat, q': int, n: int)
    requires 0 <= q < n && 0 <= q' < n
    requires BinKey(p, q, n) == BinKey(p', q', n)
    ensures p == p' && q == q'
  {
    BinKeyRange(p, q, n);
    BinKeyRange(p', q', n);
    if p < p' {
      RowsOrdered(p, p', n);
    } else if p' < p {
      RowsOrdered(p', p, n);
    }
  }

  /** The path is serpentine: consecutive bin numbers belong to bins that share a
      side, in the same row or straight above. */
  lemma BinKeySerpentine(p: nat, q: int, p': nat, q': int, n: int)
    requires 0 <= q < n && 0 <= q' < n
    requires BinKey(p', q', n) == BinKey(p, q, n) + 1
    ensures (p' == p && (q' == q + 1 || q' == q - 1)) || (p' == p + 1 && q' == q)
  {
    BinKeyRange(p, q, n);
    BinKeyRange(p', q', n);
    if p' < p {
      RowsOrdered(p', p, n);
    } else if p' > p + 1 {
      RowsOrdered(p + 1, p', n);
    }
    assert (p + 1) * n == p * n + n;
    assert (p + 2) * n == (p + 1) * n + n;
  }

  /** A point tagged with its bin number. */
  datatype Binned = Binned(bin: int, point: Node)

  /** Bin numbers and points, paired position by position. */
  function Pairs(bins: seq<int>, pts: seq<Node>): (s: seq<Binned>)
    requires |bins| == |pts|
    ensures |s| == |bins|
    ensures forall k | 0 <= k < |s| :: s[k].bin == bins[k] && s[k].point == pts[k]
  {
    seq(|bins|, k requires 0 <= k < |bins| => Binned(bins[k], pts[k]))
  }

  /** Pairs rebuilds S from its own bin numbers and points. */
  lemma PairsOfParts(bins: seq<int>, pts: seq<Node>, S: seq<Binned>)
    requires |bins| == |pts| == |S|
    requires forall k | 0 <= k < |S| :: bins[k] == S[k].bin && pts[k] == S[k].point
    ensures Pairs(bins, pts) == S
  {
  }

  /** Insertion of x into s as one step of the sort does it: scanning from the
      right, x goes after every element whose bin number is not larger. */
  function Insert(s: seq<Binned>, x: Binned): (r: seq<Binned>)
    ensures |r| == |s| + 1
  {
    if s == [] || s[|s| - 1].bin <= x.bin then s + [x]
    else Insert(s[..|s| - 1], x) + [s[|s| - 1]]
  }

  /** Insertion sort of s by bin number, inserting the elements left to right. */
  function SortByBin(s: seq<Binned>): (r: seq<Binned>)
    ensures |r| == |s|
  {
    if s == [] then [] else Insert(SortByBin(s[..|s| - 1]), s[|s| - 1])
  }

  /** Sorting one more element of the input inserts it into the sorted prefix. */
  lemma SortByBinStep(s: seq<Binned>, i: int)
    requires 0 <= i < |s|
    ensures SortByBin(s[..i + 1]) == Insert(SortByBin(s[..i]), s[i])
    ensures |SortByBin(s[..i])| == i
  {
    assert s[..i + 1][..i] == s[..i];
    SortByBinPermutes(s[..i]);
  }

  predicate SortedByBin(s: seq<Binned>) {
    forall k, k' | 0 <= k < k' < |s| :: s[k].bin <= s[k'].bin
  }

  /** The elements of s with bin number b, in order. */
  function WithBin(s: seq<Binned>, b: int): seq<Binned> {
    if s == [] then []
    else WithBin(s[..|s| - 1], b) + (if s[|s| - 1].bin == b then [s[|s| - 1]] else [])
  }

  /** When every element of s from position p on has a larger bin number than x
      and the one before p does not, insertion puts x at position p. */
  lemma {:induction false} InsertAt(s: seq<Binned>, x: Binned, p: int)
    requires 0 <= p <= |s|
    requires forall k | p <= k < |s| :: s[k].bin > x.bin
    requires p > 0 ==> s[p - 1].bin <= x.bin
    ensures Insert(s, x) == s[..p] + [x] + s[p..]
    decreases |s|
  {
    if p == |s| {
      assert s[..p] == s;
    } else {
      var s' := s[..|s| - 1];
      InsertAt(s', x, p);
      assert s'[..p] == s[..p];
      assert s'[p..] + [s[|s| - 1]] == s[p..];
    }
  }

  /** The same placement, position by position: the elements before p stay,
      x comes next, and the rest move up by one. */
  lemma InsertAtIndex(s: seq<Binned>, x: Binned, p: int)
    requires 0 <= p <= |s|
    requires forall k | p <= k < |s| :: s[k].bin > x.bin
    requires p > 0 ==> s[p - 1].bin <= x.bin
    ensures |Insert(s, x)| == |s| + 1 && Insert(s, x)[p] == x
    ensures forall k {:trigger Insert(s, x)[k]} | 0 <= k < p :: Insert(s, x)[k] == s[k]
    ensures forall k {:trigger Insert(s, x)[k]} | p < k <= |s| :: Insert(s, x)[k] == s[k - 1]
  {
    InsertAt(s, x, p);
  }

  /** Insertion adds exactly x. */
  lemma {:induction false} InsertPermutes(s: seq<Binned>, x: Binned)
    ensures multiset(Insert(s, x)) == multiset(s) + multiset{x}
    ensures |Insert(s, x)| == |s| + 1
  {
    if s != [] && s[|s| - 1].bin > x.bin {
      var s' := s[..|s| - 1];
      InsertPermutes(s', x);
      assert s == s' + [s[|s| - 1]];
    }
  }

  /** Insertion into a sorted sequence keeps it sorted. */
  lemma {:induction false} InsertSorted(s: seq<Binned>, x: Binned)
    requires SortedByBin(s)
    ensures SortedByBin(Insert(s, x))
  {
    if s != [] && s[|s| - 1].bin > x.bin {
      var s' := s[..|s| - 1];
      var y := s[|s| - 1];
      InsertSorted(s', x);
      InsertPermutes(s', x);
      var r := Insert(s', x);
      forall k | 0 <= k < |r|
        ensures r[k].bin <= y.bin
      {
        assert r[k] in multiset(r);
        assert r[k] in multiset(s') || r[k] == x;
        if r[k] != x {
          var k' :| 0 <= k' < |s'| && s'[k'] == r[k];
        }
      }
    }
  }

  /** Insertion keeps the elements of every bin in their order, x last among its
      own bin: the comparison that stops the scan is strict. */
  lemma {:induction false} InsertStable(s: seq<Binned>, x: Binned, b: int)
    ensures WithBin(Insert(s, x), b) == WithBin(s, b) + (if x.bin == b then [x] else [])
  {
    if s == [] || s[|s| - 1].bin <= x.bin {
      assert (s + [x])[..|s|] == s;
    } else {
      var s' := s[..|s| - 1];
      var y := s[|s| - 1];
      InsertStable(s', x, b);
      var r := Insert(s', x);
      assert Insert(s, x) == r + [y];
      assert (r + [y])[..|r|] == r;
      var Y := if y.bin == b then [y] else [];
      var X := if x.bin == b then [x] else [];
      assert WithBin(r + [y], b) == WithBin(r, b) + Y;
      assert WithBin(s, b) == WithBin(s', b) + Y;
      assert X == [] || Y == [];
      assert WithBin(r, b) + Y == WithBin(s', b) + Y + X;
    }
  }

  /** The sort leaves the bin numbers non-decreasing. */
  lemma {:induction false} SortByBinSorted(s: seq<Binned>)
    ensures SortedByBin(SortByBin(s))
  {
    if s != [] {
      SortByBinSorted(s[..|s| - 1]);
      InsertSorted(SortByBin(s[..|s| - 1]), s[|s| - 1]);
    }
  }

  /** The sort is a permutation: points and their bin numbers move together and
      none is lost or duplicated. */
  lemma {:induction false} SortByBinPermutes(s: seq<Binned>)
    ensures multiset(SortByBin(s)) == multiset(s)
    ensures |SortByBin(s)| == |s|
  {
    if s != [] {
      var s' := s[..|s| - 1];
      SortByBinPermutes(s');
      InsertPermutes(SortByBin(s'), s[|s| - 1]);
      assert s == s' + [s[|s| - 1]];
    }
  }

  /** The sort is stable: the points of each bin keep their input order. */
  lemma {:induction false} SortByBinStable(s: seq<Binned>, b: int)
    ensures WithBin(SortByBin(s), b) == WithBin(s, b)
  {
    if s != [] {
      var s' := s[..|s| - 1];
      SortByBinStable(s', b);
      InsertStable(SortByBin(s'), s[|s| - 1], b);
    }
  }
}
