/** What FREE does to the chunks: the free table is sorted, neighbours in it that touch are
    merged, and a last entry that ends the heap is trimmed.  When that leaves the heap
    coalesced, and when not. */
module Coalescing {
  import opened DecimalOrder
  import opened Tiling

  function Elements(s: seq<int>): set<int> {
    set a | a in s
  }

  function RemoveAt(s: seq<int>, k: int): seq<int>
    requires 0 <= k < |s|
  {
    s[..k] + s[k + 1..]
  }

  /** y starts where x ends. */
  predicate Touch(l: Layout, x: int, y: int) {
    x in l && y in l && y == End(l, x) + 2
  }

  /** The layout once q has joined p. */
  function Joined(l: Layout, p: int, q: int): Layout
    requires p in l && q in l
  {
    (l - {q})[p := l[p] + l[q] + 2]
  }

  /** The chunks, which of them are free, in table order, and where the heap ends. */
  datatype Shape = Shape(l: Layout, free: seq<int>, end: int) {
    /** Coalesced. */
    ghost predicate Tidy() {
      forall x :: x in free && x in l ==> End(l, x) != end && End(l, x) + 2 !in free
    }
  }

  lemma TidyIsCoalesced(s: Shape)
    ensures s.Tidy() <==> Coalesced(s.l, s.end, Elements(s.free))
  {
    assert forall x :: x in s.free <==> x in Elements(s.free);
    if s.Tidy() {
      forall x | x in Elements(s.free) && x in s.l ensures End(s.l, x) != s.end && End(s.l, x) + 2 !in Elements(s.free) {
        assert x in s.free;
      }
    }
    if Coalesced(s.l, s.end, Elements(s.free)) {
      forall x | x in s.free && x in s.l ensures End(s.l, x) != s.end && End(s.l, x) + 2 !in s.free {
        assert x in Elements(s.free);
      }
    }
  }

  /** The merge loop from index k: each entry is compared with the one before it only. */
  function Merged(s: Shape, k: int): Shape
    requires 1 <= k
    decreases |s.free| - k
  {
    if |s.free| <= k then s
    else if Touch(s.l, s.free[k - 1], s.free[k]) then
      Merged(Shape(Joined(s.l, s.free[k - 1], s.free[k]), RemoveAt(s.free, k), s.end), k)
    else Merged(s, k + 1)
  }

  /** The last entry is dropped if it ends the heap. */
  function Trimmed(s: Shape): Shape
    requires s.free != []
  {
    var n := |s.free| - 1;
    var z := s.free[n];
    if z in s.l && End(s.l, z) == s.end then Shape(s.l - {z}, s.free[..n], z - 2) else s
  }

  lemma {:induction false} MergedNotEmpty(s: Shape, k: int)
    requires 1 <= k && s.free != []
    ensures Merged(s, k).free != [] && Merged(s, k).end == s.end
    decreases |s.free| - k
  {
    if |s.free| <= k {
    } else {
      if Touch(s.l, s.free[k - 1], s.free[k]) {
        MergedNotEmpty(Shape(Joined(s.l, s.free[k - 1], s.free[k]), RemoveAt(s.free, k), s.end), k);
      } else {
        MergedNotEmpty(s, k + 1);
      }
    }
  }

  /** FREE of a used chunk a. */
  function Freed(s: Shape, a: int): Shape {
    Coalesce(Shape(s.l, s.free + [a], s.end))
  }

  /** The free table sorted, its neighbours merged, its last entry trimmed. */
  function Coalesce(s: Shape): Shape
    requires s.free != []
  {
    var sorted := Shape(s.l, Sort(s.free), s.end);
    SortNotEmpty(s.free);
    MergedNotEmpty(sorted, 1);
    Trimmed(Merged(sorted, 1))
  }

  lemma SortNotEmpty(s: seq<int>)
    requires s != []
    ensures Sort(s) != []
  {
    SameElements(Sort(s), s);
  }

  // ---- the order the table is left in --------------------------------------------------------

  lemma OrderedWithout(s: seq<int>, k: int)
    requires InStringOrder(s) && 0 <= k < |s|
    ensures InStringOrder(RemoveAt(s, k))
  {
    hide Decimal, Before;
    var t := RemoveAt(s, k);
    forall i, j | 0 <= i < j < |t| ensures !Before(Decimal(t[j]), Decimal(t[i])) {
      assert t[i] == s[if i < k then i else i + 1] && t[j] == s[if j < k then j else j + 1];
    }
  }

  lemma {:induction false} MergedOrdered(s: Shape, k: int)
    requires 1 <= k && InStringOrder(s.free)
    ensures InStringOrder(Merged(s, k).free)
    decreases |s.free| - k
  {
    hide InStringOrder, RemoveAt;
    if |s.free| <= k {
    } else if Touch(s.l, s.free[k - 1], s.free[k]) {
      OrderedWithout(s.free, k);
      RemovesOne(s.free, k);
      MergedOrdered(Shape(Joined(s.l, s.free[k - 1], s.free[k]), RemoveAt(s.free, k), s.end), k);
    } else {
      MergedOrdered(s, k + 1);
    }
  }

  lemma RemovesOne(s: seq<int>, k: int)
    requires 0 <= k < |s|
    ensures |RemoveAt(s, k)| == |s| - 1
  {}

  /** FREE leaves the free table in the order of its addresses' decimal strings. */
  lemma FreedOrdered(s: Shape, a: int)
    ensures InStringOrder(Freed(s, a).free)
  {
    hide InStringOrder, Merged;
    var sorted := Shape(s.l, Sort(s.free + [a]), s.end);
    SortOrdered(s.free + [a]);
    SortNotEmpty(s.free + [a]);
    MergedOrdered(sorted, 1);
    MergedNotEmpty(sorted, 1);
    var t := Merged(sorted, 1);
    OrderedWithout(t.free, |t.free| - 1);
    assert RemoveAt(t.free, |t.free| - 1) == t.free[..|t.free| - 1];
  }

  // ---- when the result is coalesced ------------------------------------------------------

  /** No entry from index k on touches the one before it. */
  ghost predicate Quiet(s: Shape, k: int) {
    forall j :: 1 <= k <= j < |s.free| ==> !Touch(s.l, s.free[j - 1], s.free[j])
  }

  lemma {:induction false} QuietMerged(s: Shape, k: int)
    requires 1 <= k && Quiet(s, k)
    ensures Merged(s, k) == s
    decreases |s.free| - k
  {
    if |s.free| <= k {
    } else {
      QuietMerged(s, k + 1);
    }
  }

  lemma {:induction false} SkipTo(s: Shape, k: int, i: int)
    requires 1 <= k <= i <= |s.free| && forall j :: k <= j < i ==> !Touch(s.l, s.free[j - 1], s.free[j])
    ensures Merged(s, k) == Merged(s, i)
    decreases i - k
  {
    if k == i {
    } else {
      SkipTo(s, k + 1, i);
    }
  }

  ghost predicate Follows(s: seq<int>, x: int, y: int) {
    exists k :: 1 <= k < |s| && s[k - 1] == x && s[k] == y
  }

  /** The table order brings together what belongs together: a free chunk that ends just
      before a comes right before it in the table, one that starts just after it right after,
      and if a ends the heap it is the table's last entry. */
  ghost predicate GoodOrder(l: Layout, table: seq<int>, end: int, a: int)
    requires a in l
  {
    && (forall p :: p in table && Touch(l, p, a) ==> Follows(table, p, a))
    && (End(l, a) + 2 in table ==> Follows(table, a, End(l, a) + 2))
    && (End(l, a) == end ==> table != [] && table[|table| - 1] == a)
  }

  /** The same, where a is entry i. */
  ghost predicate GoodAt(s: Shape, i: nat)
    requires i < |s.free| && s.free[i] in s.l
  {
    && (forall p :: p in s.free && Touch(s.l, p, s.free[i]) ==> i > 0 && s.free[i - 1] == p)
    && (End(s.l, s.free[i]) + 2 in s.free ==> i + 1 < |s.free| && s.free[i + 1] == End(s.l, s.free[i]) + 2)
    && (End(s.l, s.free[i]) == s.end ==> i == |s.free| - 1)
  }

  lemma GoodAtIndex(s: Shape, i: nat)
    requires Distinct(s.free) && i < |s.free| && s.free[i] in s.l
    ensures GoodAt(s, i) <==> GoodOrder(s.l, s.free, s.end, s.free[i])
  {
    FollowsAt(s.free, i);
  }

  lemma FollowsAt(s: seq<int>, i: nat)
    requires Distinct(s) && i < |s|
    ensures forall x :: Follows(s, x, s[i]) <==> i > 0 && s[i - 1] == x
    ensures forall y :: Follows(s, s[i], y) <==> i + 1 < |s| && s[i + 1] == y
  {}

  /** Tiled, and of the free chunks only entry i may touch others or the end. */
  ghost predicate AllButOne(s: Shape, base: int, i: nat) {
    && Tiled(s.l, base, s.end) && Distinct(s.free) && i < |s.free|
    && (forall x :: x in s.free ==> x in s.l)
    && OthersApart(s, s.free[i])
  }

  ghost predicate OthersApart(s: Shape, a: int) {
    && (forall x, y :: x in s.free && y in s.free && x != a && y != a ==> !Touch(s.l, x, y))
    && (forall x :: x in s.free && x in s.l && x != a ==> End(s.l, x) != s.end)
  }

  lemma RemoveAtElements(s: seq<int>, k: int)
    requires 0 <= k < |s| && Distinct(s)
    ensures Elements(RemoveAt(s, k)) == Elements(s) - {s[k]} && Distinct(RemoveAt(s, k))
    ensures forall a :: a in RemoveAt(s, k) <==> a in s && a != s[k]
  {
    var t := RemoveAt(s, k);
    forall a ensures a in t <==> a in s && a != s[k] {
      if a in s && a != s[k] {
        var i :| 0 <= i < |s| && s[i] == a;
        assert t[if i < k then i else i - 1] == a;
      }
      if a in t {
        var i :| 0 <= i < |t| && t[i] == a;
        assert s[if i < k then i else i + 1] == a;
      }
    }
  }

  /** Entry k joined to the one before it. */
  function MergedAt(s: Shape, k: int): Shape
    requires 1 <= k < |s.free| && Touch(s.l, s.free[k - 1], s.free[k])
  {
    Shape(Joined(s.l, s.free[k - 1], s.free[k]), RemoveAt(s.free, k), s.end)
  }

  /** A chunk has one predecessor, and joining leaves it where the second part ended. */
  lemma JoinedEnds(l: Layout, base: int, end: int, p: int, q: int)
    requires Tiled(l, base, end) && Touch(l, p, q)
    ensures End(Joined(l, p, q), p) == End(l, q) && q <= End(l, q) <= end && p < q
    ensures forall x :: Touch(l, x, q) ==> x == p
    ensures forall x :: x in l && x != p && x != q ==> x in Joined(l, p, q) && End(Joined(l, p, q), x) == End(l, x)
    ensures Joined(l, p, q).Keys == l.Keys - {q}
  {}

  /** What is left keeps its places up to the entry removed. */
  lemma RemoveAtPlaces(s: seq<int>, k: nat)
    requires k < |s|
    ensures |RemoveAt(s, k)| == |s| - 1 && forall i :: 0 <= i < k ==> RemoveAt(s, k)[i] == s[i]
    ensures forall i :: k <= i < |s| - 1 ==> RemoveAt(s, k)[i] == s[i + 1]
  {}

  lemma AllButOneMerged(s: Shape, base: int, i: nat, k: nat)
    requires AllButOne(s, base, i) && 1 <= k < |s.free| && Touch(s.l, s.free[k - 1], s.free[k]) && (i == k || i == k - 1)
    ensures AllButOne(MergedAt(s, k), base, k - 1)
  {
    hide Tiled, OthersApart, Distinct, RemoveAt;
    var p, q := s.free[k - 1], s.free[k];
    Merge(s.l, base, s.end, p, q);
    JoinedEnds(s.l, base, s.end, p, q);
    RemoveAtElements(s.free, k);
    RemoveAtPlaces(s.free, k);
    JoinedApart(s, base, i, k);
  }

  lemma JoinedApart(s: Shape, base: int, i: nat, k: nat)
    requires AllButOne(s, base, i) && 1 <= k < |s.free| && Touch(s.l, s.free[k - 1], s.free[k]) && (i == k || i == k - 1)
    ensures OthersApart(MergedAt(s, k), s.free[k - 1])
  {
    hide Tiled, Distinct, RemoveAt;
    var r, p, q := MergedAt(s, k), s.free[k - 1], s.free[k];
    JoinedEnds(s.l, base, s.end, p, q);
    RemoveAtElements(s.free, k);
    forall x, y | x in r.free && y in r.free && x != p && y != p ensures !Touch(r.l, x, y) {
      assert !Touch(s.l, x, y);
    }
  }

  /** a joined to the entry before it, which takes over as the one chunk that may touch others. */
  lemma JoinedLeft(s: Shape, base: int, i: nat)
    requires 1 <= i && AllButOne(s, base, i) && Touch(s.l, s.free[i - 1], s.free[i])
    ensures
      var r := MergedAt(s, i);
      && AllButOne(r, base, i - 1) && (GoodAt(s, i) <==> GoodAt(r, i - 1))
      && forall x :: x in r.free ==> !Touch(r.l, x, r.free[i - 1])
  {
    hide Tiled, Distinct, RemoveAt, OthersApart;
    var r, p, a := MergedAt(s, i), s.free[i - 1], s.free[i];
    AllButOneMerged(s, base, i, i);
    JoinedEnds(s.l, base, s.end, p, a);
    RemoveAtElements(s.free, i);
    RemoveAtPlaces(s.free, i);
    NoneBefore(s, base, i);
  }

  /** Only a could touch the chunk before it. */
  lemma NoneBefore(s: Shape, base: int, i: nat)
    requires 1 <= i && AllButOne(s, base, i) && Touch(s.l, s.free[i - 1], s.free[i])
    ensures forall x :: x in MergedAt(s, i).free ==> !Touch(MergedAt(s, i).l, x, s.free[i - 1])
  {
    hide Tiled, Distinct, RemoveAt;
    var r, p, a := MergedAt(s, i), s.free[i - 1], s.free[i];
    JoinedEnds(s.l, base, s.end, p, a);
    RemoveAtElements(s.free, i);
    forall x | x in r.free ensures !Touch(r.l, x, p) {
      assert p in s.free && !Touch(s.l, x, p);
    }
  }

  /** The entry after a joined to it. */
  lemma JoinedRight(s: Shape, base: int, k: nat)
    requires AllButOne(s, base, k) && k + 1 < |s.free| && Touch(s.l, s.free[k], s.free[k + 1])
    ensures
      var r := MergedAt(s, k + 1);
      && AllButOne(r, base, k) && (GoodAt(s, k) <==> GoodAt(r, k))
      && (forall x :: x in r.free ==> (Touch(r.l, x, r.free[k]) <==> Touch(s.l, x, s.free[k])))
      && End(r.l, r.free[k]) + 2 !in r.free
  {
    hide Tiled, Distinct, RemoveAt, OthersApart, Touch, GoodAt;
    AllButOneMerged(s, base, k, k + 1);
    RightFacts(s, base, k);
    RightTouches(s, base, k);
    RightGood(s, k);
  }

  /** The chunk after a touches nothing else, nor the end. */
  lemma RightFacts(s: Shape, base: int, k: nat)
    requires AllButOne(s, base, k) && k + 1 < |s.free| && Touch(s.l, s.free[k], s.free[k + 1])
    ensures
      var a, q := s.free[k], s.free[k + 1];
      && a != q && q in s.l && q == End(s.l, a) + 2 && End(s.l, a) != s.end && End(s.l, q) != s.end
      && End(s.l, q) + 2 !in s.free && !Touch(s.l, q, a)
  {
    hide Distinct;
    var a, q := s.free[k], s.free[k + 1];
    JoinedEnds(s.l, base, s.end, a, q);
    assert q in s.free;
    assert End(s.l, q) + 2 in s.free ==> Touch(s.l, q, End(s.l, q) + 2);
  }

  lemma RightTouches(s: Shape, base: int, k: nat)
    requires AllButOne(s, base, k) && k + 1 < |s.free| && Touch(s.l, s.free[k], s.free[k + 1])
    ensures
      var r, a, q := MergedAt(s, k + 1), s.free[k], s.free[k + 1];
      && a in r.l && End(r.l, a) == End(s.l, q)
      && (forall x :: x in r.free <==> x in s.free && x != q)
      && forall x :: x in r.free ==> (Touch(r.l, x, a) <==> Touch(s.l, x, a))
  {
    hide Tiled, Distinct, RemoveAt, OthersApart;
    JoinedEnds(s.l, base, s.end, s.free[k], s.free[k + 1]);
    RemoveAtElements(s.free, k + 1);
  }

  lemma RightGood(s: Shape, k: nat)
    requires k + 1 < |s.free| && Touch(s.l, s.free[k], s.free[k + 1]) && s.free[k] in s.l && s.free[k + 1] in s.l
    requires
      var r, a, q := MergedAt(s, k + 1), s.free[k], s.free[k + 1];
      && a in r.l && End(r.l, a) == End(s.l, q) && q == End(s.l, a) + 2
      && End(s.l, a) != s.end && End(s.l, q) != s.end && End(s.l, q) + 2 !in s.free && !Touch(s.l, q, a)
      && (forall x :: x in r.free <==> x in s.free && x != q)
      && forall x :: x in r.free ==> (Touch(r.l, x, a) <==> Touch(s.l, x, a))
    ensures
      var r := MergedAt(s, k + 1);
      |r.free| == |s.free| - 1 && r.free[k] == s.free[k] && (GoodAt(s, k) <==> GoodAt(r, k)) && End(r.l, r.free[k]) + 2 !in r.free
  {
    hide Touch, RemoveAt;
    RemoveAtPlaces(s.free, k + 1);
  }

  /** Entry k touches neither neighbour in the table. */
  ghost predicate Settled(s: Shape, k: nat)
    requires k < |s.free|
  {
    (k > 0 ==> !Touch(s.l, s.free[k - 1], s.free[k])) && (k + 1 < |s.free| ==> !Touch(s.l, s.free[k], s.free[k + 1]))
  }

  lemma NeighboursApart(s: Shape, base: int, k: nat, j: nat)
    requires AllButOne(s, base, k) && 1 <= j < |s.free| && j != k && j != k + 1
    ensures !Touch(s.l, s.free[j - 1], s.free[j])
  {}

  lemma SettledMerged(s: Shape, base: int, k: nat)
    requires AllButOne(s, base, k) && Settled(s, k)
    ensures Merged(s, k + 1) == s
  {
    forall j | k + 1 <= j < |s.free| ensures !Touch(s.l, s.free[j - 1], s.free[j]) {
      if j != k + 1 {
        NeighboursApart(s, base, k, j);
      }
    }
    QuietMerged(s, k + 1);
  }

  /** The merge loop up to a: joined to the entry before it, or passed by. */
  lemma MergedUpTo(s: Shape, base: int, i: nat) returns (r: Shape, k: nat)
    requires AllButOne(s, base, i)
    ensures AllButOne(r, base, k) && Merged(s, 1) == Merged(r, k + 1) && (GoodAt(s, i) <==> GoodAt(r, k))
    ensures k > 0 ==> !Touch(r.l, r.free[k - 1], r.free[k])
  {
    hide GoodAt;
    forall j | 1 <= j < i ensures !Touch(s.l, s.free[j - 1], s.free[j]) {
      NeighboursApart(s, base, i, j);
    }
    if i > 0 {
      SkipTo(s, 1, i);
    }
    if i > 0 && Touch(s.l, s.free[i - 1], s.free[i]) {
      r, k := MergedAt(s, i), i - 1;
      JoinedLeft(s, base, i);
    } else {
      r, k := s, i;
    }
  }

  /** The merge loop joins a to its neighbours in the table, as far as it touches them. */
  lemma MergedSettles(s: Shape, base: int, i: nat) returns (k: nat)
    requires AllButOne(s, base, i)
    ensures
      var r := Merged(s, 1);
      AllButOne(r, base, k) && Settled(r, k) && (GoodAt(s, i) <==> GoodAt(r, k))
  {
    hide GoodAt, AllButOne, Merged, Touch, RemoveAt;
    var r;
    r, k := MergedUpTo(s, base, i);
    EntryInside(r, base, k);
    if k + 1 < |r.free| && Touch(r.l, r.free[k], r.free[k + 1]) {
      JoinedRight(r, base, k);
      MergedOnce(r, k + 1);
      RightSettled(r, base, k);
      SettledMerged(MergedAt(r, k + 1), base, k);
    } else {
      SettledMerged(r, base, k);
    }
  }

  lemma EntryInside(s: Shape, base: int, k: nat)
    requires AllButOne(s, base, k)
    ensures k < |s.free| && forall i :: 0 <= i < |s.free| ==> s.free[i] in s.l
  {
    assert forall i :: 0 <= i < |s.free| ==> s.free[i] in s.free;
  }

  lemma MergedOnce(s: Shape, k: int)
    requires 1 <= k < |s.free| && Touch(s.l, s.free[k - 1], s.free[k])
    ensures Merged(s, k) == Merged(MergedAt(s, k), k)
  {}

  /** With its follower joined, a touches neither neighbour if it did not touch the one before. */
  lemma RightSettled(s: Shape, base: int, k: nat)
    requires AllButOne(s, base, k) && k + 1 < |s.free| && Touch(s.l, s.free[k], s.free[k + 1])
    requires k > 0 ==> !Touch(s.l, s.free[k - 1], s.free[k])
    ensures |MergedAt(s, k + 1).free| > k && Settled(MergedAt(s, k + 1), k)
  {
    hide AllButOne, Tiled, RemoveAt;
    var r := MergedAt(s, k + 1);
    RemoveAtPlaces(s.free, k + 1);
    RightFacts(s, base, k);
    RightTouches(s, base, k);
    assert k > 0 ==> r.free[k - 1] in r.free;
    assert k + 1 < |r.free| ==> r.free[k + 1] in r.free;
  }

  /** Entry k touches nothing, and ends the heap only from the end of the table. */
  ghost predicate Alone(s: Shape, k: nat)
    requires k < |s.free| && s.free[k] in s.l
  {
    && (forall p :: p in s.free ==> !Touch(s.l, p, s.free[k]))
    && End(s.l, s.free[k]) + 2 !in s.free
    && (End(s.l, s.free[k]) == s.end ==> k == |s.free| - 1)
  }

  lemma SettledGood(s: Shape, base: int, k: nat)
    requires AllButOne(s, base, k) && Settled(s, k)
    ensures GoodAt(s, k) <==> Alone(s, k)
  {
    hide Tiled;
    assert k + 1 < |s.free| ==> s.free[k + 1] in s.free && s.free[k + 1] in s.l;
  }

  lemma UntrimmedTidy(s: Shape, base: int, k: nat)
    requires AllButOne(s, base, k) && Settled(s, k) && End(s.l, s.free[|s.free| - 1]) != s.end
    ensures s.Tidy() <==> GoodAt(s, k)
  {
    hide Tiled, GoodAt, Settled;
    SettledGood(s, base, k);
    var h := s.free[k];
    assert h in s.free;
    if Alone(s, k) {
      forall x | x in s.free ensures End(s.l, x) != s.end && End(s.l, x) + 2 !in s.free {
        assert End(s.l, x) + 2 in s.free ==> Touch(s.l, x, End(s.l, x) + 2);
      }
    }
  }

  lemma DroppedTidy(s: Shape, base: int, k: nat)
    requires AllButOne(s, base, k) && Settled(s, k) && End(s.l, s.free[|s.free| - 1]) == s.end
    ensures k == |s.free| - 1
    ensures Shape(s.l - {s.free[k]}, s.free[..|s.free| - 1], s.free[k] - 2).Tidy() <==> GoodAt(s, k)
  {
    hide Tiled, GoodAt, Settled, AllButOne, Alone;
    SettledGood(s, base, k);
    LastDropped(s, base, k);
    DroppedAlone(s, k);
  }

  lemma DroppedAlone(s: Shape, k: nat)
    requires k == |s.free| - 1 && s.free[k] in s.l && End(s.l, s.free[k]) + 2 !in s.free && !Touch(s.l, s.free[k], s.free[k])
    requires
      var h, free := s.free[k], s.free[..k];
      && (forall x :: x in free <==> x in s.free && x != h) && (forall x :: x in free ==> x in s.l - {h} && x in s.l)
      && (forall x :: x in free ==> (s.l - {h})[x] == s.l[x])
      && (forall x, y :: x in free && y in free ==> !Touch(s.l, x, y))
    ensures Shape(s.l - {s.free[k]}, s.free[..k], s.free[k] - 2).Tidy() <==> Alone(s, k)
  {
    var h := s.free[k];
    var t := Shape(s.l - {h}, s.free[..k], h - 2);
    if Alone(s, k) {
      forall x | x in t.free ensures x in t.l && End(t.l, x) != t.end && End(t.l, x) + 2 !in t.free {
        assert !Touch(s.l, x, h);
        assert End(s.l, x) + 2 in t.free ==> Touch(s.l, x, End(s.l, x) + 2);
      }
    }
    if t.Tidy() {
      forall p | p in s.free ensures !Touch(s.l, p, h) {
        assert p != h ==> p in t.free && End(t.l, p) != t.end;
      }
    }
  }

  lemma LastDropped(s: Shape, base: int, k: nat)
    requires AllButOne(s, base, k) && End(s.l, s.free[|s.free| - 1]) == s.end
    ensures
      var h, n := s.free[k], |s.free| - 1;
      && k == n && h in s.l && End(s.l, h) + 2 !in s.free && !Touch(s.l, h, h)
      && (forall x :: x in s.free[..n] <==> x in s.free && x != h)
      && (forall x :: x in s.free[..n] ==> x in s.l - {h} && x in s.l)
      && (forall x :: x in s.free[..n] ==> (s.l - {h})[x] == s.l[x])
      && (forall x, y :: x in s.free[..n] && y in s.free[..n] ==> !Touch(s.l, x, y))
  {
    var h, n := s.free[k], |s.free| - 1;
    assert s.free[n] == h;
    assert s.free == s.free[..n] + [h];
    forall x | x in s.free[..n] ensures x != h {
      assert exists j :: 0 <= j < n && s.free[j] == x;
    }
  }

  /** After the loop, the trim leaves the heap coalesced exactly if the order was good. */
  lemma TrimmedTidy(s: Shape, base: int, k: nat)
    requires AllButOne(s, base, k) && Settled(s, k)
    ensures Trimmed(s).Tidy() <==> GoodAt(s, k)
  {
    hide GoodAt, Settled;
    var z := s.free[|s.free| - 1];
    assert z in s.free;
    if End(s.l, z) == s.end {
      DroppedTidy(s, base, k);
    } else {
      UntrimmedTidy(s, base, k);
    }
  }

  /** FREE of a, from a coalesced heap, leaves a coalesced heap if and only if the order of
      the table brings together what belongs together. */
  lemma FreedTidy(s: Shape, base: int, a: int)
    requires Tiled(s.l, base, s.end) && Distinct(s.free) && a !in s.free && a in s.l
    requires (forall x :: x in s.free ==> x in s.l) && s.Tidy()
    ensures Freed(s, a).Tidy() <==> GoodOrder(s.l, Sort(s.free + [a]), s.end, a)
  {
    hide Sort, GoodOrder, GoodAt, Settled;
    var table := s.free + [a];
    SortKeeps(table);
    var t := Shape(s.l, Sort(table), s.end);
    assert a in table;
    var i: nat :| i < |t.free| && t.free[i] == a;
    OnlyNewMayTouch(s, a, t);
    var k := MergedSettles(t, base, i);
    MergedNotEmpty(t, 1);
    TrimmedTidy(Merged(t, 1), base, k);
    GoodAtIndex(t, i);
  }

  lemma OnlyNewMayTouch(s: Shape, a: int, t: Shape)
    requires s.Tidy() && t.l == s.l && t.end == s.end && forall x :: x in t.free <==> x in s.free + [a]
    ensures OthersApart(t, a)
  {
    forall x | x in t.free && x != a ensures x in s.free {
      assert x in s.free + [a];
    }
  }

  // ---- orders that are good, and one that is not ------------------------------------------

  /** By address everything that touches is brought together. */
  lemma IncreasingIsGood(l: Layout, table: seq<int>, base: int, end: int, a: int)
    requires Tiled(l, base, end) && StrictlyIncreasing(table) && a in table && forall x :: x in table ==> x in l
    ensures GoodOrder(l, table, end, a)
  {
    var i :| 0 <= i < |table| && table[i] == a;
    forall p | p in table && Touch(l, p, a) ensures Follows(table, p, a) {
      BetweenNeighbours(l, table, base, end, p, a);
    }
    if End(l, a) + 2 in table {
      BetweenNeighbours(l, table, base, end, a, End(l, a) + 2);
    }
    assert table[|table| - 1] in table;
  }

  lemma BetweenNeighbours(l: Layout, table: seq<int>, base: int, end: int, p: int, q: int)
    requires Tiled(l, base, end) && StrictlyIncreasing(table) && (forall x :: x in table ==> x in l)
    requires p in table && q in table && Touch(l, p, q)
    ensures Follows(table, p, q)
  {
    var i :| 0 <= i < |table| && table[i] == p;
    var j :| 0 <= j < |table| && table[j] == q;
    assert i < j && table[i + 1] in table;
    assert forall x :: x in table ==> x <= p || q <= x;
  }

  /** If all free addresses have equally many digits, string order is order by address. */
  lemma EquallyLongIsGood(s: Shape, base: int, a: int, n: nat)
    requires Tiled(s.l, base, s.end) && Distinct(s.free) && a !in s.free && a in s.l && forall x :: x in s.free ==> x in s.l
    requires EquallyLong(s.free + [a], n)
    ensures GoodOrder(s.l, Sort(s.free + [a]), s.end, a)
  {
    hide Sort, GoodOrder, EquallyLong;
    var table := s.free + [a];
    SortKeeps(table);
    SortIncreasing(table, n);
    assert a in table;
    IncreasingIsGood(s.l, Sort(table), base, s.end, a);
  }

  /** The chunks of a heap that has grown past ten million. */
  function PastTenMillion(): Layout {
    map[1_050_707 := 8_949_281, 9_999_990 := 8, 10_000_000 := 5, 10_000_007 := 1]
  }

  /** FREE of 10_000_000 there, with 9_999_990 already free, leaves two free chunks that touch. */
  lemma LeftUnmerged()
    ensures
      var l := PastTenMillion();
      && Touch(l, 9_999_990, 10_000_000)
      && Freed(Shape(l, [], 10_000_008), 9_999_990) == Shape(l, [9_999_990], 10_000_008)
      && Freed(Shape(l, [9_999_990], 10_000_008), 10_000_000) == Shape(l, [10_000_000, 9_999_990], 10_000_008)
  {
    hide Sort;
    SortOne(9_999_990);
    EightDigitsSortFirst();
    var l := PastTenMillion();
    assert [] + [9_999_990] == [9_999_990] && [9_999_990] + [10_000_000] == [9_999_990, 10_000_000];
    NothingMerged(Shape(l, [9_999_990], 10_000_008));
    NothingMerged(Shape(l, [10_000_000, 9_999_990], 10_000_008));
  }

  lemma NothingMerged(s: Shape)
    requires |s.free| == 1 || (|s.free| == 2 && !Touch(s.l, s.free[0], s.free[1]))
    ensures Merged(s, 1) == s
  {
    QuietMerged(s, 1);
  }

  lemma SortOne(a: int)
    ensures Sort([a]) == [a]
  {}
}
