/** ALLOCATE and FREE of jsforth: chunk headers in memory, tables of the used and the free
    chunks, best fit, splitting from the top, sorting, merging and trimming. */
module Heap {
  import opened DecimalOrder
  import opened Tiling
  import opened Coalescing

  type Memory = map<int, int>

  /** The headers in memory record the layout's sizes. */
  ghost predicate Recorded(m: Memory, l: Layout) {
    forall a :: a in l ==> a - 2 in m && a - 1 in m && m[a - 1] == l[a]
  }

  /** Every used chunk's header says where the used table lists it. */
  ghost predicate Indexed(m: Memory, used: seq<int>) {
    forall i :: 0 <= i < |used| ==> used[i] - 2 in m && m[used[i] - 2] == i
  }

  /** Every data cell of these chunks is as it was. */
  ghost predicate DataKept(m: Memory, m': Memory, l: Layout, chunks: set<int>) {
    forall a, k :: a in chunks && a in l && a <= k < End(l, a) ==> SameCell(m, m', k)
  }

  ghost predicate SameCell(m: Memory, m': Memory, k: int) {
    (k in m <==> k in m') && (k in m ==> m'[k] == m[k])
  }

  /** A chunk that ALLOCATE may use: an exact fit, or one with room left for a header and at
      least one cell. */
  predicate Suits(chunk: int, size: int) {
    chunk == size || 2 < chunk - size < 0xffff_ffff
  }

  // Headers and data under the stores each step makes.

  lemma StoreAppended(m: Memory, l: Layout, base: int, end: int, used: seq<int>, free: set<int>, size: nat)
    requires Chunked(l, base, end, Elements(used), free) && Recorded(m, l) && Indexed(m, used)
    ensures
      var m' := m[end := |used|][end + 1 := size];
      && Recorded(m', l[end + 2 := size]) && Indexed(m', used + [end + 2]) && DataKept(m, m', l, Elements(used))
  {
    hide Chunked, Recorded, Indexed, DataKept;
    AllBefore(l, base, end, used, free);
    AppendedSizes(m, l, end, |used|, size);
    AppendedIndices(m, l, end, used, size);
    AppendedData(m, l, end, used, size);
  }

  lemma AllBefore(l: Layout, base: int, end: int, used: seq<int>, free: set<int>)
    requires Chunked(l, base, end, Elements(used), free)
    ensures forall a :: a in l ==> a <= End(l, a) <= end
    ensures forall a :: a in used ==> a in l
  {
    assert forall a :: a in used ==> a in Elements(used);
  }

  lemma AppendedSizes(m: Memory, l: Layout, end: int, index: int, size: nat)
    requires Recorded(m, l) && forall a :: a in l ==> a <= End(l, a) <= end
    ensures Recorded(m[end := index][end + 1 := size], l[end + 2 := size])
  {}

  lemma AppendedIndices(m: Memory, l: Layout, end: int, used: seq<int>, size: nat)
    requires Indexed(m, used) && (forall a :: a in l ==> a <= End(l, a) <= end) && forall a :: a in used ==> a in l
    ensures Indexed(m[end := |used|][end + 1 := size], used + [end + 2])
  {
    var m' := m[end := |used|][end + 1 := size];
    forall i | 0 <= i < |used| ensures used[i] - 2 in m' && m'[used[i] - 2] == i {
      assert used[i] in used;
    }
  }

  lemma AppendedData(m: Memory, l: Layout, end: int, used: seq<int>, size: nat)
    requires forall a :: a in l ==> a <= End(l, a) <= end
    ensures DataKept(m, m[end := |used|][end + 1 := size], l, Elements(used))
  {}

  lemma StoreSplit(m: Memory, l: Layout, base: int, end: int, used: seq<int>, free: set<int>, c: int, left: nat, size: nat)
    requires Chunked(l, base, end, Elements(used), free) && Recorded(m, l) && Indexed(m, used)
    requires c in free && c in l && l[c] == left + 2 + size
    ensures
      var a := c + left + 2;
      var m' := m[c - 1 := left][a - 1 := size][a - 2 := |used|];
      && Recorded(m', l[c := left][a := size]) && Indexed(m', used + [a]) && DataKept(m, m', l, Elements(used))
  {
    hide Chunked, Recorded, Indexed, DataKept;
    StoreSplitSizes(m, l, base, end, used, free, c, left, size);
    StoreSplitIndices(m, l, base, end, used, free, c, left, size);
  }

  lemma StoreSplitSizes(m: Memory, l: Layout, base: int, end: int, used: seq<int>, free: set<int>, c: int, left: nat, size: nat)
    requires Chunked(l, base, end, Elements(used), free) && Recorded(m, l)
    requires c in free && c in l && l[c] == left + 2 + size
    ensures
      var a := c + left + 2;
      var m' := m[c - 1 := left][a - 1 := size][a - 2 := |used|];
      Recorded(m', l[c := left][a := size]) && DataKept(m, m', l, Elements(used))
  {
    hide Chunked, Recorded, DataKept;
    AroundClear(l, base, end, used, free, c);
    SplitSizes(m, l, |used|, c, left, size);
    SplitData(m, l, |used|, Elements(used), c, left, size);
  }

  lemma AroundClear(l: Layout, base: int, end: int, used: seq<int>, free: set<int>, c: int)
    requires Chunked(l, base, end, Elements(used), free) && c in free && c in l
    ensures forall b :: b in l && b != c ==> End(l, b) + 2 <= c || End(l, c) + 2 <= b
    ensures forall b :: b in l ==> b <= End(l, b)
    ensures c !in Elements(used)
  {
    ClearOf(l, base, end, c);
  }

  lemma SplitSizes(m: Memory, l: Layout, index: int, c: int, left: nat, size: nat)
    requires Recorded(m, l) && c in l && l[c] == left + 2 + size && forall b :: b in l ==> b <= End(l, b)
    requires forall b :: b in l && b != c ==> End(l, b) + 2 <= c || End(l, c) + 2 <= b
    ensures
      var a := c + left + 2;
      Recorded(m[c - 1 := left][a - 1 := size][a - 2 := index], l[c := left][a := size])
  {}

  lemma SplitData(m: Memory, l: Layout, index: int, live: set<int>, c: int, left: nat, size: nat)
    requires c in l && l[c] == left + 2 + size && c !in live
    requires forall b :: b in l && b != c ==> End(l, b) + 2 <= c || End(l, c) + 2 <= b
    ensures
      var a := c + left + 2;
      DataKept(m, m[c - 1 := left][a - 1 := size][a - 2 := index], l, live)
  {}

  lemma StoreSplitIndices(m: Memory, l: Layout, base: int, end: int, used: seq<int>, free: set<int>, c: int, left: nat, size: nat)
    requires Chunked(l, base, end, Elements(used), free) && Indexed(m, used)
    requires c in free && c in l && l[c] == left + 2 + size
    ensures
      var a := c + left + 2;
      Indexed(m[c - 1 := left][a - 1 := size][a - 2 := |used|], used + [a])
  {
    var a := c + left + 2;
    var m' := m[c - 1 := left][a - 1 := size][a - 2 := |used|];
    ClearOf(l, base, end, c);
    forall i | 0 <= i < |used| ensures used[i] - 2 in m' && m'[used[i] - 2] == i {
      assert used[i] in Elements(used) && used[i] in l;
    }
  }

  /** No other chunk reaches into a chunk or its header. */
  lemma ClearOf(l: Layout, base: int, end: int, c: int)
    requires Tiled(l, base, end) && c in l
    ensures forall b :: b in l && b != c ==> End(l, b) + 2 <= c || End(l, c) + 2 <= b
  {}

  lemma StoreTaken(m: Memory, l: Layout, base: int, end: int, used: seq<int>, free: set<int>, c: int)
    requires Chunked(l, base, end, Elements(used), free) && Recorded(m, l) && Indexed(m, used) && c in free
    ensures
      var m' := m[c - 2 := |used|];
      Recorded(m', l) && Indexed(m', used + [c]) && DataKept(m, m', l, Elements(used))
  {
    var m' := m[c - 2 := |used|];
    assert forall b :: b in l && b != c ==> End(l, b) + 2 <= c || End(l, c) + 2 <= b;
    forall i | 0 <= i < |used| ensures used[i] - 2 in m' && m'[used[i] - 2] == i {
      assert used[i] in Elements(used) && used[i] in l;
    }
  }

  lemma ElementsAppend(s: seq<int>, a: int)
    ensures Elements(s + [a]) == Elements(s) + {a}
  {}

  /** Entry k replaced by the last one. */
  function SwapRemoved(s: seq<int>, k: int): seq<int>
    requires 0 <= k < |s|
  {
    s[k := s[|s| - 1]][..|s| - 1]
  }

  lemma SwapRemove(s: seq<int>, k: int)
    requires 0 <= k < |s| && Distinct(s)
    ensures Distinct(SwapRemoved(s, k)) && Elements(SwapRemoved(s, k)) == Elements(s) - {s[k]}
  {
    var t := SwapRemoved(s, k);
    forall a ensures a in t <==> a in s && a != s[k] {
      if a in s && a != s[k] {
        var i :| 0 <= i < |s| && s[i] == a;
        assert if i < |s| - 1 then t[i] == a else t[k] == a;
      }
      if a in t {
        var i :| 0 <= i < |t| && t[i] == a;
        assert a == s[if i == k then |s| - 1 else i];
      }
    }
  }

  lemma InLayout(l: Layout, base: int, end: int, used: seq<int>, free: seq<int>)
    requires Chunked(l, base, end, Elements(used), Elements(free))
    ensures forall a :: a in used || a in free ==> a in l && base + 2 <= a && a <= end
    ensures forall a :: a in used ==> a !in free
  {
    assert forall a :: a in used ==> a in Elements(used);
    assert forall a :: a in free ==> a in Elements(free);
  }

  /** What holds between calls, and in the middle of FREE, coalesced or not: the chunks tile
      the heap, each is in one table, and the headers agree with the tables. */
  ghost predicate InOrder(m: Memory, l: Layout, base: int, end: int, used: seq<int>, free: seq<int>) {
    && Distinct(free) && Chunked(l, base, end, Elements(used), Elements(free))
    && Recorded(m, l) && Indexed(m, used)
  }

  lemma Appended(m: Memory, l: Layout, base: int, end: int, used: seq<int>, free: seq<int>, size: nat)
    requires InOrder(m, l, base, end, used, free)
    ensures end + 2 !in l
    ensures
      var m' := m[end := |used|][end + 1 := size];
      && InOrder(m', l[end + 2 := size], base, end + 2 + size, used + [end + 2], free)
      && DataKept(m, m', l, Elements(used))
    ensures Shape(l, free, end).Tidy() ==> Shape(l[end + 2 := size], free, end + 2 + size).Tidy()
  {
    hide Chunked, Coalesced, Recorded, Indexed, DataKept, Distinct, Elements;
    ChunkedAppend(l, base, end, Elements(used), Elements(free), size);
    StoreAppended(m, l, base, end, used, Elements(free), size);
    ElementsAppend(used, end + 2);
    StillTidy(Shape(l, free, end), Shape(l[end + 2 := size], free, end + 2 + size));
  }

  lemma StillTidy(s: Shape, t: Shape)
    requires Coalesced(s.l, s.end, Elements(s.free)) ==> Coalesced(t.l, t.end, Elements(t.free))
    ensures s.Tidy() ==> t.Tidy()
  {
    TidyIsCoalesced(s);
    TidyIsCoalesced(t);
  }

  lemma SplitOff(m: Memory, l: Layout, base: int, end: int, used: seq<int>, free: seq<int>, c: int, left: nat, size: nat)
    requires InOrder(m, l, base, end, used, free) && c in free && c in l && l[c] == left + 2 + size
    ensures c + left + 2 !in l
    ensures
      var a := c + left + 2;
      var m' := m[c - 1 := left][a - 1 := size][a - 2 := |used|];
      && InOrder(m', l[c := left][a := size], base, end, used + [a], free)
      && DataKept(m, m', l, Elements(used))
      && (Shape(l, free, end).Tidy() ==> Shape(l[c := left][a := size], free, end).Tidy())
  {
    hide Chunked, Coalesced, Recorded, Indexed, DataKept, Distinct;
    assert c in Elements(free);
    ChunkedSplit(l, base, end, Elements(used), Elements(free), c, left, size);
    StoreSplit(m, l, base, end, used, Elements(free), c, left, size);
    ElementsAppend(used, c + left + 2);
    StillTidy(Shape(l, free, end), Shape(l[c := left][c + left + 2 := size], free, end));
  }

  lemma TakenWhole(m: Memory, l: Layout, base: int, end: int, used: seq<int>, free: seq<int>, fit: int)
    requires InOrder(m, l, base, end, used, free) && 0 <= fit < |free|
    ensures
      var c := free[fit];
      var m' := m[c - 2 := |used|];
      var free' := SwapRemoved(free, fit);
      && InOrder(m', l, base, end, used + [c], free') && Elements(free') == Elements(free) - {c}
      && DataKept(m, m', l, Elements(used))
      && (Shape(l, free, end).Tidy() ==> Shape(l, free', end).Tidy())
  {
    hide Chunked, Coalesced, Recorded, Indexed, DataKept, Distinct;
    var c := free[fit];
    assert c in Elements(free);
    ChunkedTake(l, base, end, Elements(used), Elements(free), c);
    StoreTaken(m, l, base, end, used, Elements(free), c);
    SwapRemove(free, fit);
    ElementsAppend(used, c);
    StillTidy(Shape(l, free, end), Shape(l, SwapRemoved(free, fit), end));
  }

  lemma Facts(m: Memory, l: Layout, base: int, end: int, used: seq<int>, free: seq<int>)
    requires InOrder(m, l, base, end, used, free)
    ensures forall a :: a in used || a in free ==> a in l && a - 1 in m && m[a - 1] == l[a]
    ensures forall i :: 0 <= i < |free| ==> free[i] in l && free[i] - 1 in m && m[free[i] - 1] == l[free[i]]
    ensures forall a :: a in used ==> a !in free
  {
    InLayout(l, base, end, used, free);
    assert forall i :: 0 <= i < |free| ==> free[i] in free;
  }

  lemma FreeFact(m: Memory, l: Layout, base: int, end: int, used: seq<int>, free: seq<int>, i: int)
    requires InOrder(m, l, base, end, used, free) && 0 <= i < |free|
    ensures free[i] in l && free[i] in free && free[i] - 1 in m && m[free[i] - 1] == l[free[i]]
  {
    Facts(m, l, base, end, used, free);
  }

  lemma UsedIndex(m: Memory, l: Layout, base: int, end: int, used: seq<int>, free: seq<int>, a: int) returns (i: int)
    requires InOrder(m, l, base, end, used, free) && a in used
    ensures 0 <= i < |used| && used[i] == a && a - 2 in m && m[a - 2] == i
  {
    i :| 0 <= i < |used| && used[i] == a;
  }

  /** A used chunk taken off its table, the last one filling its place, and put on the other. */
  lemma Released(m: Memory, l: Layout, base: int, end: int, used: seq<int>, free: seq<int>, i: int)
    requires InOrder(m, l, base, end, used, free) && 0 <= i < |used|
    ensures
      var last := used[|used| - 1];
      var m' := if i < |used| - 1 then m[last - 2 := i] else m;
      && InOrder(m', l, base, end, SwapRemoved(used, i), free + [used[i]])
      && Elements(SwapRemoved(used, i)) == Elements(used) - {used[i]}
      && DataKept(m, m', l, l.Keys)
    ensures used[i] in l && used[i] !in free && used[i] in used
  {
    hide Tiled, Coalesced, Recorded, DataKept;
    var last := used[|used| - 1];
    assert used[i] in used && last in used && last in Elements(used);
    InLayout(l, base, end, used, free);
    IndexedDistinct(m, used);
    SwapRemove(used, i);
    ElementsAppend(free, used[i]);
    DistinctAppend(free, used[i]);
    StoreHeader(m, l, base, end, last, i);
    NothingStored(m, l);
    Reindexed(m, used, i);
  }

  lemma SwapRemovedInTurn(s: seq<int>, k: int)
    requires 0 <= k < |s|
    ensures SwapRemoved(s, k) == if k < |s| - 1 then s[..|s| - 1][k := s[|s| - 1]] else s[..|s| - 1]
  {}

  lemma InTables(m: Memory, l: Layout, base: int, end: int, used: seq<int>, free: seq<int>, a: int)
    requires InOrder(m, l, base, end, used, free) && a in used
    ensures Tiled(l, base, end) && Distinct(free) && a in l && a !in free && (forall x :: x in free ==> x in l)
    ensures forall x :: x in l ==> base <= x <= end
  {
    InLayout(l, base, end, used, free);
  }

  lemma TableDistinct(m: Memory, l: Layout, base: int, end: int, used: seq<int>, free: seq<int>)
    requires InOrder(m, l, base, end, used, free)
    ensures Distinct(used)
  {
    IndexedDistinct(m, used);
  }

  lemma AllocatedSizes(l: Layout, l': Layout, used: seq<int>, c: int, u: nat)
    requires (forall x :: x in used ==> x in l) && c !in used
    requires forall x :: x in l && x != c ==> x in l' && l'[x] == l[x]
    ensures SameSizes(l, l', Elements(used))
  {}

  lemma NothingStored(m: Memory, l: Layout)
    ensures DataKept(m, m, l, l.Keys)
  {}

  lemma Reindexed(m: Memory, used: seq<int>, i: int)
    requires Indexed(m, used) && 0 <= i < |used|
    ensures
      var last, n := used[|used| - 1], |used| - 1;
      Indexed(if i < n then m[last - 2 := i] else m, SwapRemoved(used, i))
  {
    IndexedDistinct(m, used);
  }

  lemma IndexedDistinct(m: Memory, used: seq<int>)
    requires Indexed(m, used)
    ensures Distinct(used)
  {}

  lemma DistinctAppend(s: seq<int>, a: int)
    requires Distinct(s) && a !in s
    ensures Distinct(s + [a])
  {}

  /** Storing an index into a header disturbs no size and no data. */
  lemma StoreHeader(m: Memory, l: Layout, base: int, end: int, c: int, index: int)
    requires Tiled(l, base, end) && Recorded(m, l) && c in l
    ensures Recorded(m[c - 2 := index], l) && DataKept(m, m[c - 2 := index], l, l.Keys)
  {
    ClearOf(l, base, end, c);
  }

  /** The free table after sorting, in whatever order: the same chunks. */
  lemma Sorted(m: Memory, l: Layout, base: int, end: int, used: seq<int>, free: seq<int>)
    requires InOrder(m, l, base, end, used, free)
    ensures InOrder(m, l, base, end, used, Sort(free)) && |Sort(free)| == |free|
  {
    hide Sort, Distinct, Chunked, Recorded, Indexed;
    SortKeeps(free);
    forall a ensures a in Elements(Sort(free)) <==> a in Elements(free) {
      assert a in Sort(free) <==> a in free;
    }
    assert Elements(Sort(free)) == Elements(free);
  }

  lemma NothingChanged(m: Memory, l: Layout, base: int, end: int, used: seq<int>, free: seq<int>)
    requires InOrder(m, l, base, end, used, free)
    ensures SameSizes(l, l, Elements(used)) && DataKept(m, m, l, Elements(used))
  {}

  /** One merge, whatever the order of the table: the chunk at k joins the one before it. */
  lemma MergedStep(m: Memory, l: Layout, base: int, end: int, used: seq<int>, free: seq<int>, k: int)
    requires InOrder(m, l, base, end, used, free) && 1 <= k < |free| && Touch(l, free[k - 1], free[k])
    ensures
      var p, q := free[k - 1], free[k];
      && p - 1 in m && q - 1 in m && m[p - 1] == l[p] && m[q - 1] == l[q]
      && var m' := m[p - 1 := l[p] + (l[q] + 2)];
         && InOrder(m', Joined(l, p, q), base, end, used, RemoveAt(free, k))
         && SameSizes(l, Joined(l, p, q), Elements(used)) && DataKept(m, m', l, Elements(used))
  {
    hide Tiled, Indexed, Distinct, DataKept, RemoveAt, SameSizes;
    var p, q := free[k - 1], free[k];
    assert p in Elements(free) && q in Elements(free);
    Merge(l, base, end, p, q);
    JoinedEnds(l, base, end, p, q);
    StoreMerged(m, l, base, end, used, Elements(free), p, q);
    RemoveAtElements(free, k);
    assert Joined(l, p, q).Keys == Elements(used) + Elements(RemoveAt(free, k));
  }

  lemma StoreMerged(m: Memory, l: Layout, base: int, end: int, used: seq<int>, free: set<int>, p: int, q: int)
    requires Tiled(l, base, end) && Elements(used) + free == l.Keys && Elements(used) !! free
    requires Recorded(m, l) && Indexed(m, used) && p in free && q in free && q == End(l, p) + 2
    ensures
      var m' := m[p - 1 := l[p] + (l[q] + 2)];
      && p - 1 in m && q - 1 in m && m[p - 1] == l[p] && m[q - 1] == l[q]
      && Recorded(m', Joined(l, p, q)) && Indexed(m', used) && DataKept(m, m', l, Elements(used))
      && SameSizes(l, Joined(l, p, q), Elements(used))
  {
    ClearOf(l, base, end, p);
    var m' := m[p - 1 := l[p] + (l[q] + 2)];
    forall i | 0 <= i < |used| ensures used[i] - 2 in m' && m'[used[i] - 2] == i {
      assert used[i] in Elements(used) && used[i] in l;
    }
  }

  /** The last entry of the free table dropped, if it ends the heap. */
  lemma LastTrimmed(m: Memory, l: Layout, base: int, end: int, used: seq<int>, free: seq<int>)
    requires InOrder(m, l, base, end, used, free) && free != []
    ensures
      var z := free[|free| - 1];
      && z in l && z - 1 in m && m[z - 1] == l[z] && z <= end
      && (z + l[z] == end ==> InOrder(m, l - {z}, base, z - 2, used, free[..|free| - 1]))
      && SameSizes(l, l - {z}, Elements(used))
  {
    hide Recorded, Indexed;
    var n := |free| - 1;
    var z := free[n];
    assert z in Elements(free);
    RecordedAt(m, l, z);
    assert free[..n] == RemoveAt(free, n);
    RemoveAtElements(free, n);
    RecordedLess(m, l, z);
    if z + l[z] == end {
      Trim(l, base, end, z);
      assert (l - {z}).Keys == Elements(used) + (Elements(free) - {z});
    }
  }

  lemma RecordedAt(m: Memory, l: Layout, a: int)
    requires Recorded(m, l) && a in l
    ensures a - 1 in m && m[a - 1] == l[a]
  {}

  lemma RecordedLess(m: Memory, l: Layout, a: int)
    requires Recorded(m, l)
    ensures Recorded(m, l - {a})
  {}

  lemma KeptTransitive(m: Memory, m': Memory, m'': Memory, l: Layout, l': Layout, chunks: set<int>)
    requires DataKept(m, m', l, chunks) && DataKept(m', m'', l', chunks) && SameSizes(l, l', chunks)
    ensures DataKept(m, m'', l, chunks)
  {
    forall a, k | a in chunks && a in l && a <= k < End(l, a) ensures SameCell(m, m'', k) {
      assert SameCell(m, m', k);
      assert a in l' && a <= k < End(l', a);
      assert SameCell(m', m'', k);
    }
  }

  lemma SizesTransitive(l: Layout, l': Layout, l'': Layout, chunks: set<int>)
    requires SameSizes(l, l', chunks) && SameSizes(l', l'', chunks)
    ensures SameSizes(l, l'', chunks)
  {}

  lemma KeptLess(m: Memory, m': Memory, l: Layout, chunks: set<int>)
    requires DataKept(m, m', l, l.Keys)
    ensures DataKept(m, m', l, chunks)
  {}

  /** The entries after k up to i are one place down. */
  function Shifted(s: seq<int>, k: nat, i: nat): seq<int>
    requires k <= i < |s|
  {
    s[..k] + s[k + 1..i + 1] + s[i..]
  }

  lemma MovedDown(s: seq<int>, k: nat, i: nat)
    requires k <= i < |s| - 1
    ensures |Shifted(s, k, i)| == |s| && Shifted(s, k, i)[i := Shifted(s, k, i)[i + 1]] == Shifted(s, k, i + 1)
  {
    var t := Shifted(s, k, i);
    assert t[i + 1] == s[i + 1];
    assert s[k + 1..i + 2] == s[k + 1..i + 1] + [s[i + 1]];
    assert s[i..] == [s[i], s[i + 1]] + s[i + 2..] && s[i + 1..] == [s[i + 1]] + s[i + 2..];
  }

  lemma NoneMoved(s: seq<int>, k: nat)
    requires k < |s|
    ensures Shifted(s, k, k) == s
  {}

  lemma AllMovedDown(s: seq<int>, k: nat)
    requires k < |s|
    ensures Shifted(s, k, |s| - 1)[..|s| - 1] == RemoveAt(s, k)
  {
    assert s[k + 1..|s|] == s[k + 1..];
  }

  class Heap {
    var m: Memory
    var usedchunk: seq<int>
    var freechunk: seq<int>
    var nusedchunks: int
    var nfreechunks: int
    var heapend: int
    const base: int
    ghost var layout: Layout

    ghost predicate Valid()
      reads this
    {
      && nusedchunks == |usedchunk| && nfreechunks == |freechunk|
      && InOrder(m, layout, base, heapend, usedchunk, freechunk)
    }

    /** The chunks, the free ones in table order, and the end. */
    ghost function Chunks(): Shape
      reads this
    {
      Shape(layout, freechunk, heapend)
    }

    ghost function Now(): Snapshot
      reads this
    {
      Snapshot(m, usedchunk, Chunks())
    }

    constructor (m: Memory, base: int)
      ensures Valid() && Chunks().Tidy() && this.m == m && this.base == base && heapend == base
      ensures usedchunk == [] && freechunk == [] && layout == map[]
    {
      this.m, this.base, heapend := m, base, base;
      usedchunk, freechunk, nusedchunks, nfreechunks := [], [], 0, 0;
      layout := map[];
    }

    /** An exact fit if there is one, else the least chunk that leaves a usable remainder,
        else -1.  (fittype names a variable by its address, which is never zero, so the
        first-fit return is never taken.) */
    method SearchFit(size: nat) returns (fit: int)
      requires Valid()
      ensures -1 <= fit < |freechunk|
      ensures forall a :: a in freechunk ==> a in layout
      ensures fit >= 0 ==> Suits(layout[freechunk[fit]], size)
      ensures fit >= 0 ==> forall a :: a in freechunk && Suits(layout[a], size) ==> layout[freechunk[fit]] <= layout[a]
      ensures forall j :: 0 <= j < fit && Suits(layout[freechunk[j]], size) ==> layout[freechunk[fit]] < layout[freechunk[j]]
      ensures fit == -1 ==> forall a :: a in freechunk ==> !Suits(layout[a], size)
    {
      hide InOrder;
      Facts(m, layout, base, heapend, usedchunk, freechunk);
      fit := -1;
      if nfreechunks != 0 {
        var temp := 0xffff_ffff;
        var i := 0;
        while i < nfreechunks
          invariant 0 <= i <= nfreechunks
          invariant -1 <= fit < i
          invariant forall j :: 0 <= j < i ==> layout[freechunk[j]] != size
          invariant fit == -1 ==> temp == 0xffff_ffff
          invariant fit >= 0 ==> temp == layout[freechunk[fit]] - size && 2 < temp < 0xffff_ffff
          invariant forall j :: 0 <= j < i && 2 < layout[freechunk[j]] - size < 0xffff_ffff ==>
                      fit >= 0 && temp <= layout[freechunk[j]] - size && (j < fit ==> temp < layout[freechunk[j]] - size)
        {
          assert freechunk[i] in freechunk;
          var slack := m[freechunk[i] - 1] - size;
          if slack == 0 { return i; }
          if slack > 2 {
            if slack < temp {
              fit := i;
              temp := slack;
            }
          }
          i := i + 1;
        }
      }
    }

    /** A chunk past the end of the heap. */
    method NewChunk(size: nat) returns (a: int)
      requires Valid()
      modifies this
      ensures Valid() && a == old(heapend) + 2 && a !in old(layout)
      ensures usedchunk == old(usedchunk) + [a] && freechunk == old(freechunk)
      ensures layout == old(layout)[a := size] && heapend == a + size
      ensures old(Chunks().Tidy()) ==> Chunks().Tidy()
      ensures DataKept(old(m), m, old(layout), old(Elements(usedchunk)))
    {
      hide InOrder, DataKept, Elements;
      Appended(m, layout, base, heapend, usedchunk, freechunk, size);
      m := m[heapend := nusedchunks];
      heapend := heapend + 1;
      m := m[heapend := size];
      heapend := heapend + 1;
      usedchunk, nusedchunks := usedchunk + [heapend], nusedchunks + 1;
      a := heapend;
      heapend := heapend + size;
      layout := layout[a := size];
    }

    /** A chunk entered at the end of the used table, and its place there into its header. */
    method Register(a: int)
      modifies `m, `usedchunk, `nusedchunks
      ensures m == old(m)[a - 2 := old(nusedchunks)]
      ensures usedchunk == old(usedchunk) + [a] && nusedchunks == old(nusedchunks) + 1
    {
      m := m[a - 2 := nusedchunks];
      usedchunk, nusedchunks := usedchunk + [a], nusedchunks + 1;
    }

    method SplitTop(fit: nat, size: nat, left: nat) returns (a: int)
      requires Valid() && fit < |freechunk| && freechunk[fit] in layout && layout[freechunk[fit]] == left + 2 + size
      modifies this
      ensures Valid() && heapend == old(heapend)
      ensures usedchunk == old(usedchunk) + [a] && freechunk == old(freechunk)
      ensures a == freechunk[fit] + left + 2 && a !in old(layout)
      ensures layout == old(layout)[freechunk[fit] := left][a := size]
      ensures old(Chunks().Tidy()) ==> Chunks().Tidy()
      ensures DataKept(old(m), m, old(layout), old(Elements(usedchunk)))
    {
      hide InOrder, DataKept, Elements;
      SplitOff(m, layout, base, heapend, usedchunk, freechunk, freechunk[fit], left, size);
      var chunkaddr, sizeleft := freechunk[fit], left;
      m := m[chunkaddr - 1 := sizeleft];
      layout := layout[chunkaddr := sizeleft];
      sizeleft := sizeleft + 1;
      chunkaddr := chunkaddr + sizeleft;
      m := m[chunkaddr := size];
      chunkaddr := chunkaddr + 1;
      layout := layout[chunkaddr := size];
      Register(chunkaddr);
      a := chunkaddr;
    }

    method UseWhole(fit: nat) returns (a: int)
      requires Valid() && fit < |freechunk|
      modifies this
      ensures Valid() && heapend == old(heapend)
      ensures usedchunk == old(usedchunk) + [a] && a == old(freechunk)[fit] && layout == old(layout)
      ensures freechunk == SwapRemoved(old(freechunk), fit) && Elements(freechunk) == old(Elements(freechunk)) - {a}
      ensures old(Chunks().Tidy()) ==> Chunks().Tidy()
      ensures DataKept(old(m), m, old(layout), old(Elements(usedchunk)))
    {
      hide InOrder, DataKept, Elements;
      TakenWhole(m, layout, base, heapend, usedchunk, freechunk, fit);
      a := freechunk[fit];
      nfreechunks := nfreechunks - 1;
      freechunk := freechunk[fit := freechunk[nfreechunks]];
      freechunk := freechunk[..|freechunk| - 1];
      Register(a);
    }

    /** A free chunk split from its top, or used whole. */
    method SplitChunk(fit: nat, size: nat) returns (a: int)
      requires Valid() && fit < |freechunk| && freechunk[fit] in layout && Suits(layout[freechunk[fit]], size)
      modifies this
      ensures Valid() && heapend == old(heapend)
      ensures usedchunk == old(usedchunk) + [a]
      ensures
        var c := old(freechunk)[fit];
        if old(layout)[c] == size then
          a == c && layout == old(layout) && freechunk == SwapRemoved(old(freechunk), fit)
        else
          var left := old(layout)[c] - (size + 2);
          && left >= 1 && a == c + left + 2 && a !in old(layout)
          && layout == old(layout)[c := left][a := size] && freechunk == old(freechunk)
      ensures old(Chunks().Tidy()) ==> Chunks().Tidy()
      ensures DataKept(old(m), m, old(layout), old(Elements(usedchunk)))
    {
      hide InOrder, DataKept, Elements;
      var chunkaddr := freechunk[fit];
      FreeFact(m, layout, base, heapend, usedchunk, freechunk, fit);
      var sizeleft := m[chunkaddr - 1] - (size + 2);
      if sizeleft > 0 {
        a := SplitTop(fit, size, sizeleft);
      } else {
        a := UseWhole(fit);
      }
    }

    /** ALLOCATE ( u -- a 0 ): the new chunk has the size asked for, was not in use, and lies
        in the best-fitting free chunk if one suits, at its top, else past the old end. */
    method Allocate(u: nat) returns (a: int, err: int)
      requires Valid()
      modifies this
      ensures Valid() && err == 0
      ensures Allocated(u, old(Now()), Now()) && usedchunk == old(usedchunk) + [a]
    {
      hide InOrder, DataKept, SameSizes, BestFit, Taken, Suits, Shape.Tidy, Elements;
      Facts(m, layout, base, heapend, usedchunk, freechunk);
      ghost var s, used := Chunks(), usedchunk;
      var fit := SearchFit(u);
      if fit < 0 {
        a := NewChunk(u);
        AllocatedSizes(s.l, layout, used, a, u);
        PastEndFits(s, u);
      } else {
        assert freechunk[fit] in freechunk;
        a := SplitChunk(fit, u);
        AllocatedSizes(s.l, layout, used, s.free[fit], u);
        FreeFits(s, u, fit, a, Chunks());
      }
      err := 0;
    }

    /** Entry k taken out of the free table by moving those after it down, one by one, and
        dropping the last. */
    method DropFree(k: nat)
      requires k < |freechunk| && nfreechunks == |freechunk| - 1
      modifies `freechunk
      ensures freechunk == RemoveAt(old(freechunk), k)
    {
      hide Shifted, RemoveAt;
      ghost var s := freechunk;
      NoneMoved(s, k);
      var i: int := k;
      while i < nfreechunks
        invariant k <= i <= nfreechunks
        invariant |freechunk| == |s| && freechunk == Shifted(s, k, i)
      {
        MovedDown(s, k, i);
        freechunk := freechunk[i := freechunk[i + 1]];
        i := i + 1;
      }
      AllMovedDown(s, k);
      freechunk := freechunk[..|freechunk| - 1];
    }

    /** The chunk leaves the used table, whose last entry takes its place. */
    method Release(a: int) returns (ghost i: int)
      requires Valid() && a in usedchunk
      modifies this
      ensures Valid() && heapend == old(heapend) && layout == old(layout)
      ensures 0 <= i < old(|usedchunk|) && old(usedchunk)[i] == a && usedchunk == SwapRemoved(old(usedchunk), i)
      ensures freechunk == old(freechunk) + [a] && Elements(usedchunk) == old(Elements(usedchunk)) - {a}
      ensures DataKept(old(m), m, layout, layout.Keys)
    {
      hide InOrder, DataKept, Elements;
      i := UsedIndex(m, layout, base, heapend, usedchunk, freechunk, a);
      Released(m, layout, base, heapend, usedchunk, freechunk, i);
      SwapRemovedInTurn(usedchunk, i);
      var temp := if m[a - 2] < nusedchunks - 1 then m[a - 2] else nusedchunks - 1;
      var chunkaddr := usedchunk[temp];
      freechunk, nfreechunks := freechunk + [chunkaddr], nfreechunks + 1;
      nusedchunks := nusedchunks - 1;
      var lastchunk := usedchunk[|usedchunk| - 1];
      usedchunk := usedchunk[..|usedchunk| - 1];
      if temp < nusedchunks {
        m := m[lastchunk - 2 := temp];
        usedchunk := usedchunk[temp := lastchunk];
      }
    }

    /** The merge loop, whatever the order of the table. */
    method MergeFree()
      requires Valid() && freechunk != []
      modifies `m, `freechunk, `nfreechunks, `layout
      ensures Valid() && Chunks() == Merged(old(Chunks()), 1)
      ensures SameSizes(old(layout), layout, Elements(usedchunk))
      ensures DataKept(old(m), m, old(layout), Elements(usedchunk))
    {
      hide InOrder, DataKept, SameSizes, Elements;
      ghost var m0, l0, s := m, layout, Chunks();
      FreeFact(m, layout, base, heapend, usedchunk, freechunk, 0);
      NothingChanged(m, layout, base, heapend, usedchunk, freechunk);
      var chunkaddr := freechunk[0] + m[freechunk[0] - 1] + 2;
      var temp := 1;
      while temp < nfreechunks
        invariant 1 <= temp <= nfreechunks && Valid() && Merged(Chunks(), temp) == Merged(s, 1)
        invariant freechunk[temp - 1] in layout && chunkaddr == End(layout, freechunk[temp - 1]) + 2
        invariant SameSizes(l0, layout, Elements(usedchunk)) && DataKept(m0, m, l0, Elements(usedchunk))
        decreases nfreechunks - temp
      {
        FreeFact(m, layout, base, heapend, usedchunk, freechunk, temp);
        if freechunk[temp] == chunkaddr {
          MergedStep(m, layout, base, heapend, usedchunk, freechunk, temp);
          ghost var p, q, m1, l1 := freechunk[temp - 1], freechunk[temp], m, layout;
          var chunksize := m[freechunk[temp] - 1] + 2;
          m := m[freechunk[temp - 1] - 1 := m[freechunk[temp - 1] - 1] + chunksize];
          layout := Joined(l1, p, q);
          chunkaddr := chunkaddr + chunksize;
          nfreechunks := nfreechunks - 1;
          DropFree(temp);
          KeptTransitive(m0, m1, m, l0, l1, Elements(usedchunk));
          SizesTransitive(l0, l1, layout, Elements(usedchunk));
        } else {
          chunkaddr := freechunk[temp] + m[freechunk[temp] - 1] + 2;
          temp := temp + 1;
        }
      }
    }

    /** FREE ( a -- 0 ) of a live chunk, in any heap: exactly that chunk is no longer used, no
        other live chunk's size or data changes, and the free chunks are what sorting, merging
        table neighbours and trimming make of them.  A coalesced heap stays coalesced if and
        only if the string order of the free table brings together what touches a. */
    method Free(a: int) returns (err: int, ghost i: int)
      requires Valid() && a in usedchunk
      modifies this
      ensures Valid() && err == 0
      ensures 0 <= i < old(|usedchunk|) && old(usedchunk)[i] == a && GivenBack(i, old(Now()), Now())
      ensures a in old(layout) && InStringOrder(freechunk)
      ensures old(Chunks().Tidy()) ==>
        (Chunks().Tidy() <==> GoodOrder(old(layout), Sort(old(freechunk) + [a]), old(heapend), a))
    {
      hide InOrder, DataKept, SameSizes, Elements, GoodOrder, Merged, Trimmed, Shape.Tidy, InStringOrder;
      ghost var m0, s := m, Chunks();
      FreedOrdered(s, a);
      InTables(m, layout, base, heapend, usedchunk, freechunk, a);
      if s.Tidy() {
        FreedTidy(s, base, a);
      }
      i := Release(a);
      KeptLess(m0, m, layout, Elements(usedchunk));
      NothingChanged(m, layout, base, heapend, usedchunk, freechunk);
      ghost var m1 := m;
      Coalesce();
      KeptTransitive(m0, m1, m, s.l, s.l, Elements(usedchunk));
      err := 0;
    }

    /** What FREE does once the chunk is in the free table: sort, merge, trim. */
    method Coalesce()
      requires Valid() && freechunk != []
      modifies `m, `freechunk, `nfreechunks, `layout, `heapend
      ensures Valid() && Chunks() == Coalescing.Coalesce(old(Chunks())) && heapend <= old(heapend)
      ensures SameSizes(old(layout), layout, Elements(usedchunk))
      ensures DataKept(old(m), m, old(layout), Elements(usedchunk))
    {
      hide InOrder, DataKept, SameSizes, Elements, Merged, Sort;
      ghost var l0 := layout;
      SortNotEmpty(freechunk);
      Sorted(m, layout, base, heapend, usedchunk, freechunk);
      freechunk := Sort(freechunk);
      MergedNotEmpty(Chunks(), 1);
      MergeFree();
      LastTrimmed(m, layout, base, heapend, usedchunk, freechunk);
      ghost var l2 := layout;
      var temp := freechunk[nfreechunks - 1];
      if temp + m[temp - 1] == heapend {
        nfreechunks := nfreechunks - 1;
        freechunk := freechunk[..|freechunk| - 1];
        heapend := temp - 2;
        layout := l2 - {temp};
        SizesTransitive(l0, l2, layout, Elements(usedchunk));
      }
    }

    /** In a coalesced heap, freeing the chunk just allocated restores end, chunks and free
        chunks exactly, if and only if the order of the free table is good for it. */
    method AllocateThenFree(u: nat) returns (ghost a: int, ghost between: Snapshot)
      requires Valid() && Chunks().Tidy()
      modifies this
      ensures Valid() && Allocated(u, old(Now()), between) && between.used == old(usedchunk) + [a]
      ensures Elements(usedchunk) == old(Elements(usedchunk)) && Kept(old(Now()), Now(), Elements(usedchunk))
      ensures a in between.chunks.l
      ensures GoodOrder(between.chunks.l, Sort(between.chunks.free + [a]), between.chunks.end, a)
         <==> heapend == old(heapend) && layout == old(layout) && Elements(freechunk) == old(Elements(freechunk))
    {
      hide InOrder, DataKept, SameSizes, GoodOrder, Freed;
      ghost var s, used := Now(), Elements(usedchunk);
      OrderIsChunked(m, layout, base, heapend, usedchunk, freechunk);
      var b, _ := Allocate(u);
      a, between := b, Now();
      ElementsAppend(s.used, a);
      assert Elements(usedchunk) - {a} == used;
      var _, i := Free(b);
      OrderIsChunked(m, layout, base, heapend, usedchunk, freechunk);
      KeptTwice(s, between, Now(), used);
      TidyIsCoalesced(s.chunks);
      TidyIsCoalesced(Chunks());
      if Chunks().Tidy() {
        Canonical(s.chunks.l, layout, base, s.chunks.end, heapend, used, Elements(s.chunks.free), Elements(freechunk));
      }
    }

    /** Any run of allocations and frees of live chunks, in any heap, goes through states in
        order, each from the one before by one operation. */
    method Perform(ops: seq<Operation>) returns (ghost trace: seq<Snapshot>)
      requires Valid()
      modifies this
      ensures Valid() && IsRun(ops, base, trace) && trace[0] == old(Now()) && trace[|ops|] == Now()
    {
      hide InOrder, Stepped;
      trace := [Now()];
      var i := 0;
      while i < |ops|
        invariant 0 <= i <= |ops| && Valid() && IsRun(ops[..i], base, trace)
        invariant trace[0] == old(Now()) && trace[i] == Now()
      {
        ghost var before := Now();
        PerformOne(ops[i]);
        RunExtended(ops, base, trace, i, Now());
        trace := trace + [Now()];
        i := i + 1;
      }
      assert ops[..i] == ops;
    }

    method PerformOne(op: Operation)
      requires Valid()
      modifies this
      ensures Valid() && Stepped(op, old(Now()), Now())
    {
      hide InOrder, Allocated, GivenBack;
      match op {
        case Allocate(u) =>
          var _, _ := Allocate(u);
        case Free(k) =>
          if k < |usedchunk| {
            ghost var used := usedchunk;
            assert usedchunk[k] in usedchunk;
            TableDistinct(m, layout, base, heapend, usedchunk, freechunk);
            var _, i := Free(usedchunk[k]);
            assert used[i] == used[k];
          }
      }
    }
  }

  // ---- whole runs ---------------------------------------------------------------------------

  /** What a program asks of the heap: a chunk of u cells, or the k-th entry of the used table
      freed. */
  datatype Operation = Allocate(u: nat) | Free(k: nat)

  /** Memory, used table and chunks at one moment. */
  datatype Snapshot = Snapshot(m: Memory, used: seq<int>, chunks: Shape)

  /** The chunks' sizes and data are the same in both. */
  ghost predicate Kept(s: Snapshot, t: Snapshot, live: set<int>) {
    SameSizes(s.chunks.l, t.chunks.l, live) && DataKept(s.m, t.m, s.chunks.l, live)
  }

  /** ALLOCATE of u cells: one more used chunk, at the end of the table; all others are as they
      were; and the chunks are as best fit makes them. */
  ghost predicate Allocated(u: nat, s: Snapshot, t: Snapshot) {
    && |t.used| == |s.used| + 1 && t.used[..|s.used|] == s.used
    && (var a := t.used[|s.used|];
       && a !in s.used && a in t.chunks.l && t.chunks.l[a] == u
       && BestFit(s.chunks, u, a, t.chunks))
    && Kept(s, t, Elements(s.used))
    && (s.chunks.Tidy() ==> t.chunks.Tidy())
  }

  /** Where ALLOCATE puts a chunk of u cells: past the end if no free chunk suits; else it is
      the smallest that suits, or the top of it. */
  ghost predicate BestFit(s: Shape, u: nat, a: int, t: Shape) {
    if forall c :: c in s.free && c in s.l ==> !Suits(s.l[c], u) then
      a == s.end + 2 && t == Shape(s.l[a := u], s.free, a + u)
    else
      exists k :: 0 <= k < |s.free| && s.free[k] in s.l && Taken(s, u, k, a, t)
        && forall b :: b in s.free && b in s.l && Suits(s.l[b], u) ==> s.l[s.free[k]] <= s.l[b]
  }

  /** u cells taken from entry k: the whole of it, or its top. */
  ghost predicate Taken(s: Shape, u: nat, k: nat, a: int, t: Shape)
    requires k < |s.free| && s.free[k] in s.l
  {
    var c := s.free[k];
    && Suits(s.l[c], u) && a + u == End(s.l, c)
    && t == if s.l[c] == u then Shape(s.l, SwapRemoved(s.free, k), s.end)
            else Shape(s.l[c := s.l[c] - (u + 2)][a := u], s.free, s.end)
  }

  lemma PastEndFits(s: Shape, u: nat)
    requires forall c :: c in s.free ==> c in s.l && !Suits(s.l[c], u)
    ensures BestFit(s, u, s.end + 2, Shape(s.l[s.end + 2 := u], s.free, s.end + 2 + u))
  {}

  lemma FreeFits(s: Shape, u: nat, k: nat, a: int, t: Shape)
    requires (forall c :: c in s.free ==> c in s.l) && k < |s.free| && s.free[k] in s.l && Suits(s.l[s.free[k]], u)
    requires forall c :: c in s.free && Suits(s.l[c], u) ==> s.l[s.free[k]] <= s.l[c]
    requires t.end == s.end
    requires
      var c := s.free[k];
      if s.l[c] == u then a == c && t.l == s.l && t.free == SwapRemoved(s.free, k)
      else
        var left := s.l[c] - (u + 2);
        a == c + left + 2 && t.l == s.l[c := left][a := u] && t.free == s.free
    ensures BestFit(s, u, a, t) && a in t.l && t.l[a] == u
  {
    assert s.free[k] in s.free && Taken(s, u, k, a, t);
  }

  /** A chunk of that size serves a request for u cells: it has just as many, or room for them, a
      header and at least one cell more.  (Chunks larger by 2^32 - 1 or more are never used.) */
  ghost predicate Serves(size: int, u: nat) {
    size == u || u + 3 <= size < u + 0xffff_ffff
  }

  /** The heap grows if and only if no free chunk serves; if one does, the request is met at the
      top of the smallest that does. */
  lemma RoomIsUsed(u: nat, s: Snapshot, t: Snapshot)
    requires Allocated(u, s, t) && forall c :: c in s.chunks.free ==> c in s.chunks.l
    ensures
      var l, free, a := s.chunks.l, s.chunks.free, t.used[|s.used|];
      if exists c :: c in free && Serves(l[c], u) then
        && t.chunks.end == s.chunks.end
        && exists c :: c in free && Serves(l[c], u) && a + u == c + l[c]
             && forall b :: b in free && Serves(l[b], u) ==> l[c] <= l[b]
      else a == s.chunks.end + 2 && t.chunks.end == a + u
  {
    hide Kept, Shape.Tidy, Elements, SwapRemoved;
    var l, free := s.chunks.l, s.chunks.free;
    assert forall c :: c in free ==> (Suits(l[c], u) <==> Serves(l[c], u));
    hide Suits, Serves;
    if c :| c in free && Suits(l[c], u) {
      var k :| 0 <= k < |free| && free[k] in l && Taken(s.chunks, u, k, t.used[|s.used|], t.chunks)
        && forall b :: b in free && b in l && Suits(l[b], u) ==> l[free[k]] <= l[b];
      assert free[k] in free;
    }
  }

  /** FREE of the used chunk at index i. */
  ghost predicate GivenBack(i: int, s: Snapshot, t: Snapshot)
    requires 0 <= i < |s.used|
  {
    && t.used == SwapRemoved(s.used, i) && Elements(t.used) == Elements(s.used) - {s.used[i]}
    && t.chunks == Freed(s.chunks, s.used[i]) && t.chunks.end <= s.chunks.end
    && Kept(s, t, Elements(t.used))
  }

  ghost predicate Stepped(op: Operation, s: Snapshot, t: Snapshot) {
    match op
    case Allocate(u) => Allocated(u, s, t)
    case Free(k) => if k < |s.used| then GivenBack(k, s, t) else t == s
  }

  ghost predicate Ordered(s: Snapshot, base: int) {
    InOrder(s.m, s.chunks.l, base, s.chunks.end, s.used, s.chunks.free)
  }

  ghost predicate IsRun(ops: seq<Operation>, base: int, trace: seq<Snapshot>) {
    && |trace| == |ops| + 1
    && (forall i :: 0 <= i < |trace| ==> Ordered(trace[i], base))
    && (forall i :: 0 <= i < |ops| ==> Stepped(ops[i], trace[i], trace[i + 1]))
  }

  lemma RunExtended(ops: seq<Operation>, base: int, trace: seq<Snapshot>, n: nat, next: Snapshot)
    requires n < |ops| && IsRun(ops[..n], base, trace) && Ordered(next, base) && Stepped(ops[n], trace[n], next)
    ensures IsRun(ops[..n + 1], base, trace + [next])
  {
    hide Stepped, Ordered;
    var longer := trace + [next];
    forall i | 0 <= i < n + 1 ensures Stepped(ops[..n + 1][i], longer[i], longer[i + 1]) {
      assert i < n ==> ops[..n][i] == ops[i] && Stepped(ops[..n][i], trace[i], trace[i + 1]);
    }
  }

  /** While a chunk stays in the used table, whenever it got there, no operation of any run
      changes its size or its data. */
  lemma {:induction false} LiveChunkKept(ops: seq<Operation>, base: int, trace: seq<Snapshot>, i: nat, j: nat, a: int)
    requires IsRun(ops, base, trace) && i <= j < |trace|
    requires forall k :: i <= k <= j ==> a in trace[k].used
    ensures Kept(trace[i], trace[j], {a})
    decreases j - i
  {
    hide Stepped, Ordered, Kept;
    LiveInLayout(trace[i], base, a);
    if i == j {
    } else {
      LiveChunkKept(ops, base, trace, i, j - 1, a);
      LiveInLayout(trace[j - 1], base, a);
      StepKeeps(ops[j - 1], trace[j - 1], trace[j], a);
      KeptTwice(trace[i], trace[j - 1], trace[j], {a});
    }
  }

  lemma LiveInLayout(s: Snapshot, base: int, a: int)
    requires Ordered(s, base) && a in s.used
    ensures Kept(s, s, {a}) && a in s.chunks.l
  {
    InLayout(s.chunks.l, base, s.chunks.end, s.used, s.chunks.free);
  }

  lemma StepKeeps(op: Operation, s: Snapshot, t: Snapshot, a: int)
    requires Stepped(op, s, t) && a in s.used && a in t.used && a in s.chunks.l
    ensures Kept(s, t, {a})
  {
    hide Kept, BestFit, Freed;
    assert a in Elements(s.used) && a in Elements(t.used);
    match op {
      case Allocate(_) => KeptOne(s, t, Elements(s.used), a);
      case Free(k) =>
        if k < |s.used| {
          KeptOne(s, t, Elements(t.used), a);
        } else {
          KeptOne(s, t, {}, a);
        }
    }
  }

  lemma KeptOne(s: Snapshot, t: Snapshot, live: set<int>, a: int)
    requires a in s.chunks.l && (s == t || (a in live && Kept(s, t, live)))
    ensures Kept(s, t, {a})
  {}

  lemma KeptTwice(s: Snapshot, t: Snapshot, r: Snapshot, live: set<int>)
    requires Kept(s, t, live) && Kept(t, r, live)
    ensures Kept(s, r, live)
  {
    hide SameCell;
    KeptTransitive(s.m, t.m, r.m, s.chunks.l, t.chunks.l, live);
  }

  /** A free step whose table order brings together what touches the freed chunk. */
  ghost predicate WellOrdered(op: Operation, s: Snapshot) {
    op.Free? && op.k < |s.used| ==>
      var a := s.used[op.k];
      a in s.chunks.l && GoodOrder(s.chunks.l, Sort(s.chunks.free + [a]), s.chunks.end, a)
  }

  lemma StepTidy(op: Operation, s: Snapshot, t: Snapshot, base: int)
    requires Stepped(op, s, t) && Ordered(s, base) && s.chunks.Tidy()
    ensures t.chunks.Tidy() <==> WellOrdered(op, s)
  {
    hide GoodOrder, Freed, BestFit, Kept;
    if op.Free? && op.k < |s.used| {
      InTables(s.m, s.chunks.l, base, s.chunks.end, s.used, s.chunks.free, s.used[op.k]);
      FreedTidy(s.chunks, base, s.used[op.k]);
    }
  }

  /** A run that starts coalesced stays coalesced throughout if and only if every FREE in it
      finds its table in good order. */
  lemma {:induction false} TidyThroughout(ops: seq<Operation>, base: int, trace: seq<Snapshot>, n: nat)
    requires IsRun(ops, base, trace) && trace[0].chunks.Tidy() && n <= |ops|
    ensures (forall i :: 0 <= i <= n ==> trace[i].chunks.Tidy()) <==> (forall i :: 0 <= i < n ==> WellOrdered(ops[i], trace[i]))
    decreases n
  {
    hide Stepped, Ordered, WellOrdered;
    if n == 0 {
    } else {
      TidyThroughout(ops, base, trace, n - 1);
      if forall i :: 0 <= i <= n - 1 ==> trace[i].chunks.Tidy() {
        StepTidy(ops[n - 1], trace[n - 1], trace[n], base);
      }
    }
  }

  /** How far the heap can grow under a run of operations. */
  function Demand(ops: seq<Operation>): (d: nat) {
    if ops == [] then 0
    else Demand(ops[..|ops| - 1]) + Room(ops[|ops| - 1])
  }

  function Room(op: Operation): nat {
    match op case Allocate(u) => u + 2 case Free(_) => 0
  }

  /** If all addresses the run can reach have equally many digits it stays coalesced. */
  lemma {:induction false} EquallyLongRun(ops: seq<Operation>, base: int, trace: seq<Snapshot>, n: nat)
    requires IsRun(ops, base, trace) && n <= |ops| && trace[0].chunks.Tidy()
    requires 0 <= base && |Decimal(base)| == |Decimal(trace[0].chunks.end + Demand(ops[..n]))|
    ensures trace[n].chunks.Tidy() && trace[n].chunks.end <= trace[0].chunks.end + Demand(ops[..n])
    decreases n
  {
    hide IsRun, Demand, Decimal, Shape.Tidy;
    RunStart(ops, base, trace);
    if n == 0 {
    } else {
      var end := trace[0].chunks.end;
      DemandStep(ops, n);
      DigitsMonotone(base, end + Demand(ops[..n - 1]));
      DigitsMonotone(end + Demand(ops[..n - 1]), end + Demand(ops[..n]));
      EquallyLongRun(ops, base, trace, n - 1);
      EquallyLongStep(ops, base, trace, n, end + Demand(ops[..n - 1]));
    }
  }

  /** So it is below ten million, wherever from a million up the heap starts. */
  lemma BelowTenMillion(ops: seq<Operation>, base: int, trace: seq<Snapshot>, n: nat)
    requires IsRun(ops, base, trace) && n <= |ops| && trace[0].chunks.Tidy()
    requires 1_000_000 <= base && trace[0].chunks.end + Demand(ops[..n]) < 10_000_000
    ensures trace[n].chunks.Tidy()
  {
    hide IsRun, Demand, Decimal, Shape.Tidy;
    RunStart(ops, base, trace);
    SevenDigits(base);
    SevenDigits(trace[0].chunks.end + Demand(ops[..n]));
    EquallyLongRun(ops, base, trace, n);
  }

  lemma RunStart(ops: seq<Operation>, base: int, trace: seq<Snapshot>)
    requires IsRun(ops, base, trace)
    ensures |trace| == |ops| + 1 && base <= trace[0].chunks.end && Demand(ops[..0]) == 0
  {
    hide Stepped;
    OrderIsChunked(trace[0].m, trace[0].chunks.l, base, trace[0].chunks.end, trace[0].used, trace[0].chunks.free);
  }

  lemma DemandStep(ops: seq<Operation>, n: nat)
    requires 0 < n <= |ops|
    ensures Demand(ops[..n]) == Demand(ops[..n - 1]) + Room(ops[n - 1])
  {
    assert ops[..n][..n - 1] == ops[..n - 1] && ops[..n][n - 1] == ops[n - 1];
  }

  lemma EquallyLongStep(ops: seq<Operation>, base: int, trace: seq<Snapshot>, n: nat, limit: int)
    requires IsRun(ops, base, trace) && 0 < n <= |ops| && trace[n - 1].chunks.Tidy()
    requires trace[n - 1].chunks.end <= limit && 0 <= base <= limit && |Decimal(base)| == |Decimal(limit)|
    ensures trace[n].chunks.Tidy() && trace[n].chunks.end <= limit + Room(ops[n - 1])
  {
    hide Stepped, Ordered, WellOrdered, Decimal;
    StepTidy(ops[n - 1], trace[n - 1], trace[n], base);
    StepWellOrdered(ops[n - 1], trace[n - 1], base, limit);
    StepGrows(ops[n - 1], trace[n - 1], trace[n], base);
  }

  lemma StepWellOrdered(op: Operation, s: Snapshot, base: int, limit: int)
    requires Ordered(s, base) && s.chunks.end <= limit && 0 <= base <= limit && |Decimal(base)| == |Decimal(limit)|
    ensures WellOrdered(op, s)
  {
    hide GoodOrder, Decimal, Sort;
    if op.Free? && op.k < |s.used| {
      var a, table := s.used[op.k], s.chunks.free + [s.used[op.k]];
      InTables(s.m, s.chunks.l, base, s.chunks.end, s.used, s.chunks.free, a);
      forall i | 0 <= i < |table| ensures 0 <= table[i] && |Decimal(table[i])| == |Decimal(base)| {
        assert table[i] in s.chunks.l by {
          assert i < |s.chunks.free| ==> table[i] in s.chunks.free;
        }
        DigitsMonotone(base, table[i]);
        DigitsMonotone(table[i], limit);
      }
      EquallyLongIsGood(s.chunks, base, a, |Decimal(base)|);
    }
  }

  lemma StepGrows(op: Operation, s: Snapshot, t: Snapshot, base: int)
    requires Stepped(op, s, t) && Ordered(s, base)
    ensures t.chunks.end <= s.chunks.end + Room(op)
  {
    hide Kept, Freed;
  }

  lemma OrderIsChunked(m: Memory, l: Layout, base: int, end: int, used: seq<int>, free: seq<int>)
    requires InOrder(m, l, base, end, used, free)
    ensures Chunked(l, base, end, Elements(used), Elements(free)) && base <= end
  {}

  /** With nothing in use a coalesced heap is empty again, back at its base. */
  lemma NothingUsed(s: Snapshot, base: int)
    requires Ordered(s, base) && s.chunks.Tidy() && s.used == []
    ensures s.chunks == Shape(map[], [], base)
  {
    TidyIsCoalesced(s.chunks);
    var free := s.chunks.free;
    assert free != [] ==> free[0] in free && free[0] in Elements(free);
    EmptyHeap(s.chunks.l, base, s.chunks.end, Elements(s.used), Elements(s.chunks.free));
    assert s.chunks.l.Keys == {};
  }

  /** Where jsforth's heap starts: above a megacell of memory, the 81 cells of the input buffer
      and two block buffers. */
  const FRESH := 0x10_0000 + 81 + 2 * 1024

  /** From a fresh heap, a run whose last FREE leaves two free chunks that touch. */
  method LeaveUnmerged() returns (h: Heap)
    ensures h.Valid() && h.freechunk == [10_000_000, 9_999_990] && Touch(h.layout, 9_999_990, 10_000_000)
    ensures h.base == FRESH && !h.Chunks().Tidy()
  {
    hide InOrder, Freed, GivenBack, GoodOrder, BestFit, Kept, Shape.Tidy, Touch, Elements, PastTenMillion;
    LeftUnmerged();
    TouchingIsUntidy(Shape(PastTenMillion(), [10_000_000, 9_999_990], 10_000_008), 9_999_990, 10_000_000);
    h := GrowPastTenMillion();
    ghost var s := h.Now();
    var _, i := h.Free(9_999_990);
    StaysUsed(i, s, h.Now(), 10_000_000);
    s := h.Now();
    var _, j := h.Free(10_000_000);
    StaysUsed(j, s, h.Now(), 10_000_000);
  }

  /** Four requests that the end of a fresh heap meets one after the other. */
  method GrowPastTenMillion() returns (h: Heap)
    ensures fresh(h) && h.Valid() && h.base == FRESH
    ensures h.Chunks() == Shape(PastTenMillion(), [], 10_000_008)
    ensures h.usedchunk == [1_050_707, 9_999_990, 10_000_000, 10_000_007]
  {
    hide Heap.Valid, Shape.Tidy;
    h := new Heap(map[], FRESH);
    var big := PutPastEnd(h, 8_949_281);
    assert h.usedchunk == [1_050_707];
    var first := PutPastEnd(h, 8);
    assert h.usedchunk == [1_050_707, 9_999_990];
    var second := PutPastEnd(h, 5);
    assert h.usedchunk == [1_050_707, 9_999_990, 10_000_000];
    var last := PutPastEnd(h, 1);
    assert h.layout == PastTenMillion();
  }

  lemma StaysUsed(i: int, s: Snapshot, t: Snapshot, a: int)
    requires 0 <= i < |s.used| && GivenBack(i, s, t)
    ensures t.chunks == Freed(s.chunks, s.used[i])
    ensures a in s.used && a != s.used[i] ==> a in t.used
  {
    assert a in Elements(t.used) <==> a in t.used;
    assert a in Elements(s.used) <==> a in s.used;
  }

  lemma TouchingIsUntidy(s: Shape, p: int, q: int)
    requires p in s.free && q in s.free && Touch(s.l, p, q)
    ensures !s.Tidy()
  {}

  method PutPastEnd(h: Heap, u: nat) returns (a: int)
    requires h.Valid() && h.freechunk == []
    modifies h
    ensures h.Valid() && h.freechunk == [] && a == old(h.heapend) + 2 && h.heapend == a + u
    ensures h.layout == old(h.layout)[a := u] && h.usedchunk == old(h.usedchunk) + [a]
  {
    var b, _ := h.Allocate(u);
    a := b;
  }
}
