/** How the chunks of a heap fill it, apart from the memory that records them.  A layout maps
    the address of each chunk's data to its size; two header cells come before the data. */
module Tiling {

  type Layout = map<int, int>

  function End(l: Layout, a: int): int
    requires a in l
  {
    a + l[a]
  }

  ghost predicate Within(l: Layout, base: int, end: int) {
    forall a :: a in l ==> base + 2 <= a && 0 <= l[a] && End(l, a) <= end
  }

  ghost predicate Apart(l: Layout) {
    forall a, b :: a in l && b in l && a < b ==> End(l, a) + 2 <= b
  }

  ghost predicate NoGaps(l: Layout, base: int, end: int) {
    && (forall a :: a in l ==> End(l, a) == end || End(l, a) + 2 in l)
    && (base == end || base + 2 in l)
  }

  /** The chunks lie in [base, end) without overlap and without gaps. */
  ghost predicate Tiled(l: Layout, base: int, end: int) {
    base <= end && Within(l, base, end) && Apart(l) && NoGaps(l, base, end)
  }

  /** No two free chunks touch, and none touches the end of the heap. */
  ghost predicate Coalesced(l: Layout, end: int, free: set<int>) {
    forall a :: a in free && a in l ==> End(l, a) != end && End(l, a) + 2 !in free
  }

  // ---- the steps ----------------------------------------------------------------------

  /** A new chunk past the end. */
  lemma Append(l: Layout, base: int, end: int, free: set<int>, size: nat)
    requires Tiled(l, base, end) && free <= l.Keys
    ensures end + 2 !in l
    ensures Tiled(l[end + 2 := size], base, end + 2 + size)
    ensures Coalesced(l, end, free) ==> Coalesced(l[end + 2 := size], end + 2 + size, free)
  {}

  /** A free chunk split from its top. */
  lemma Split(l: Layout, base: int, end: int, free: set<int>, c: int, left: nat, size: nat)
    requires Tiled(l, base, end) && free <= l.Keys
    requires c in free && l[c] == left + 2 + size
    ensures c + left + 2 !in l
    ensures Tiled(l[c := left][c + left + 2 := size], base, end)
    ensures Coalesced(l, end, free) ==> Coalesced(l[c := left][c + left + 2 := size], end, free)
  {
    hide Apart, Within, NoGaps, Coalesced;
    SplitApart(l, base, end, c, left, size);
    SplitWithin(l, base, end, c, left, size);
    SplitNoGaps(l, base, end, c, left, size);
    SplitCoalesced(l, base, end, free, c, left, size);
  }

  lemma SplitWithin(l: Layout, base: int, end: int, c: int, left: nat, size: nat)
    requires Within(l, base, end) && c in l && l[c] == left + 2 + size
    ensures Within(l[c := left][c + left + 2 := size], base, end)
  {}

  lemma SplitNoGaps(l: Layout, base: int, end: int, c: int, left: nat, size: nat)
    requires NoGaps(l, base, end) && c in l && l[c] == left + 2 + size && c + left + 2 !in l
    ensures NoGaps(l[c := left][c + left + 2 := size], base, end)
  {}

  lemma SplitCoalesced(l: Layout, base: int, end: int, free: set<int>, c: int, left: nat, size: nat)
    requires Within(l, base, end) && free <= l.Keys && c in free && l[c] == left + 2 + size && c + left + 2 !in l
    ensures Coalesced(l, end, free) ==> Coalesced(l[c := left][c + left + 2 := size], end, free)
  {}

  lemma SplitApart(l: Layout, base: int, end: int, c: int, left: nat, size: nat)
    requires Within(l, base, end) && Apart(l) && c in l && l[c] == left + 2 + size
    ensures c + left + 2 !in l && Apart(l[c := left][c + left + 2 := size])
  {
    assert forall b :: b in l && b != c ==> End(l, b) < c || End(l, c) < b;
  }

  /** A chunk merged into the one before it. */
  lemma Merge(l: Layout, base: int, end: int, p: int, q: int)
    requires Tiled(l, base, end) && p in l && q in l && q == End(l, p) + 2
    ensures Tiled((l - {q})[p := l[p] + l[q] + 2], base, end)
  {
    var l' := (l - {q})[p := l[p] + l[q] + 2];
    assert forall b :: b in l && b != p && b != q ==> End(l, b) < p || End(l, q) < b;
    assert Apart(l');
    hide Apart;
    assert Within(l', base, end);
    assert NoGaps(l', base, end);
  }

  /** The last chunk dropped. */
  lemma Trim(l: Layout, base: int, end: int, z: int)
    requires Tiled(l, base, end) && z in l && End(l, z) == end
    ensures Tiled(l - {z}, base, z - 2)
  {
    assert forall b :: b in l && b != z ==> b < z;
  }

  // ---- what a tiling determines ---------------------------------------------------------

  /** Every cell of the heap belongs to exactly one chunk, as header or as data. */
  ghost predicate Owns(l: Layout, a: int, x: int) {
    a in l && a - 2 <= x < End(l, a)
  }

  lemma EveryCellOwned(l: Layout, base: int, end: int, x: int) returns (a: int)
    requires Tiled(l, base, end) && base <= x < end
    ensures Owns(l, a, x) && forall b :: Owns(l, b, x) ==> b == a
  {
    a := base + 2;
    while End(l, a) <= x
      invariant a in l && a - 2 <= x
      decreases end - a
    {
      a := End(l, a) + 2;
    }
  }

  /** A heap that is not empty has a chunk that ends where it ends. */
  lemma LastChunk(l: Layout, base: int, end: int) returns (a: int)
    requires Tiled(l, base, end) && base != end
    ensures a in l && End(l, a) == end
  {
    a := base + 2;
    while End(l, a) != end
      invariant a in l
      decreases end - a
    {
      a := End(l, a) + 2;
    }
  }

  /** A chunk that is not the first has another right before it. */
  lemma ChunkBefore(l: Layout, base: int, end: int, a: int) returns (p: int)
    requires Tiled(l, base, end) && a in l && a != base + 2
    ensures p in l && End(l, p) + 2 == a
  {
    p := base + 2;
    while End(l, p) + 2 != a
      invariant p in l && p < a
      decreases a - p
    {
      p := End(l, p) + 2;
    }
  }

  /** The chunks tile the heap, and each is either used or free. */
  ghost predicate Chunked(l: Layout, base: int, end: int, used: set<int>, free: set<int>) {
    Tiled(l, base, end) && used + free == l.Keys && used !! free
  }

  ghost predicate Heaped(l: Layout, base: int, end: int, used: set<int>, free: set<int>) {
    Chunked(l, base, end, used, free) && Coalesced(l, end, free)
  }

  lemma ChunkedAppend(l: Layout, base: int, end: int, used: set<int>, free: set<int>, size: nat)
    requires Chunked(l, base, end, used, free)
    ensures end + 2 !in l && Chunked(l[end + 2 := size], base, end + 2 + size, used + {end + 2}, free)
    ensures Coalesced(l, end, free) ==> Coalesced(l[end + 2 := size], end + 2 + size, free)
  {
    Append(l, base, end, free, size);
    hide Tiled, Coalesced;
    assert l[end + 2 := size].Keys == used + {end + 2} + free;
  }

  lemma ChunkedSplit(l: Layout, base: int, end: int, used: set<int>, free: set<int>, c: int, left: nat, size: nat)
    requires Chunked(l, base, end, used, free) && c in free && l[c] == left + 2 + size
    ensures c + left + 2 !in l
    ensures Chunked(l[c := left][c + left + 2 := size], base, end, used + {c + left + 2}, free)
    ensures Coalesced(l, end, free) ==> Coalesced(l[c := left][c + left + 2 := size], end, free)
  {
    Split(l, base, end, free, c, left, size);
    hide Tiled, Coalesced;
    assert l[c := left][c + left + 2 := size].Keys == used + {c + left + 2} + free;
  }

  lemma ChunkedTake(l: Layout, base: int, end: int, used: set<int>, free: set<int>, c: int)
    requires Chunked(l, base, end, used, free) && c in free
    ensures Chunked(l, base, end, used + {c}, free - {c})
    ensures Coalesced(l, end, free) ==> Coalesced(l, end, free - {c})
  {
    assert used + {c} + (free - {c}) == used + free;
  }

  ghost predicate SameSizes(l: Layout, l': Layout, chunks: set<int>) {
    forall a :: a in chunks ==> a in l && a in l' && l[a] == l'[a]
  }

  /** The used chunks determine the end of the heap: it is where the last of them ends. */
  lemma EndDetermined(l: Layout, l': Layout, base: int, end: int, end': int, used: set<int>, free: set<int>, free': set<int>)
    requires Heaped(l, base, end, used, free) && Heaped(l', base, end', used, free') && SameSizes(l, l', used)
    ensures end <= end'
  {
    if base != end {
      var a := LastChunk(l, base, end);
      assert a in used;
    }
  }

  /** Each free chunk of one heap is a free chunk of the other, of the same size: between two
      used chunks there is room for just one. */
  lemma FreeDetermined(l: Layout, l': Layout, base: int, end: int, used: set<int>, free: set<int>, free': set<int>, a: int)
    requires Heaped(l, base, end, used, free) && Heaped(l', base, end, used, free') && SameSizes(l, l', used)
    requires a in free
    ensures a in free' && l[a] == l'[a]
  {
    if a != base + 2 {
      var p := ChunkBefore(l, base, end, a);
      assert p in used;
    }
    assert a in l';
    assert End(l, a) + 2 in used && End(l', a) + 2 in used;
  }

  /** The heap is canonical: whatever operations led to it, the used chunks alone determine
      where it ends and which chunks are free.  Nothing leaks. */
  lemma Canonical(l: Layout, l': Layout, base: int, end: int, end': int, used: set<int>, free: set<int>, free': set<int>)
    requires Heaped(l, base, end, used, free) && Heaped(l', base, end', used, free') && SameSizes(l, l', used)
    ensures end == end' && free == free' && l == l'
    ensures used == {} ==> free == {} && end == base
  {
    EndDetermined(l, l', base, end, end', used, free, free');
    EndDetermined(l', l, base, end', end, used, free', free);
    forall a | a in free ensures a in free' && l[a] == l'[a] {
      FreeDetermined(l, l', base, end, used, free, free', a);
    }
    forall a | a in free' ensures a in free && l[a] == l'[a] {
      FreeDetermined(l', l, base, end, used, free', free, a);
    }
    assert l.Keys == l'.Keys;
    forall a | a in l ensures l[a] == l'[a] {
      assert a in used + free;
    }
    EmptyHeap(l, base, end, used, free);
  }

  /** With nothing in use the heap is empty again. */
  lemma EmptyHeap(l: Layout, base: int, end: int, used: set<int>, free: set<int>)
    requires Heaped(l, base, end, used, free)
    ensures used == {} ==> free == {} && end == base
  {
    if base != end {
      var a := LastChunk(l, base, end);
      assert a in used;
    } else {
      assert l == map[] by {
        assert forall a :: a in l ==> base + 2 <= a <= end;
      }
    }
  }
}
