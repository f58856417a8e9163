/** JavaScript's default sort compares numbers by their decimal strings. */
module DecimalOrder {

  function Digit(d: nat): char
    requires d < 10
  {
    '0' + d as char
  }

  function Decimal(n: int): (s: string)
    ensures s != []
    decreases if n < 0 then 1 - n else n
  {
    if n < 0 then "-" + Decimal(-n) else if n < 10 then [Digit(n)] else Decimal(n / 10) + [Digit(n % 10)]
  }

  /** s comes strictly before t in dictionary order. */
  predicate Before(s: string, t: string) {
    t != [] && (s == [] || s[0] < t[0] || (s[0] == t[0] && Before(s[1..], t[1..])))
  }

  /** The strings agree up to k, and there s has the lower character. */
  ghost predicate LowerAt(s: string, t: string, k: int) {
    0 <= k < |s| && k < |t| && s[..k] == t[..k] && s[k] < t[k]
  }

  /** That is: a proper beginning of the other, or lower at the first place where they differ. */
  lemma {:induction false} BeforeIs(s: string, t: string)
    ensures Before(s, t) <==> s != t && (s <= t || exists k :: LowerAt(s, t, k))
  {
    if s == [] || t == [] {
    } else {
      BeforeIs(s[1..], t[1..]);
      SomewhereLower(s, t);
      BeginningLater(s, t);
    }
  }

  lemma BeginningLater(s: string, t: string)
    requires s != [] && t != []
    ensures s <= t <==> s[0] == t[0] && s[1..] <= t[1..]
    ensures s == t <==> s[0] == t[0] && s[1..] == t[1..]
  {
    assert s == [s[0]] + s[1..] && t == [t[0]] + t[1..];
    if s <= t {
      assert s[1..] == t[..|s|][1..] == t[1..][..|s| - 1];
    }
  }

  lemma SomewhereLower(s: string, t: string)
    requires s != [] && t != []
    ensures (exists k :: LowerAt(s, t, k)) <==> s[0] < t[0] || (s[0] == t[0] && exists k :: LowerAt(s[1..], t[1..], k))
  {
    hide LowerAt;
    if k :| LowerAt(s, t, k) {
      LowerLater(s, t, k - 1);
    }
    if s[0] < t[0] {
      LowerLater(s, t, -1);
      assert LowerAt(s, t, 0);
    } else if k :| s[0] == t[0] && LowerAt(s[1..], t[1..], k) {
      LowerLater(s, t, k);
      assert LowerAt(s, t, k + 1);
    }
  }

  lemma LowerLater(s: string, t: string, k: int)
    requires s != [] && t != []
    ensures LowerAt(s, t, k + 1) <==> if k == -1 then s[0] < t[0] else s[0] == t[0] && LowerAt(s[1..], t[1..], k)
    ensures LowerAt(s[1..], t[1..], k) ==> k >= 0
  {
    if 0 <= k < |s| - 1 && k < |t| - 1 {
      assert s[..k + 1] == [s[0]] + s[1..][..k] && t[..k + 1] == [t[0]] + t[1..][..k];
      assert s[..k + 1][0] == s[0] && t[..k + 1][0] == t[0];
      assert s[..k + 1][1..] == s[1..][..k] && t[..k + 1][1..] == t[1..][..k];
    }
  }

  lemma {:induction false} BeforeTransitive(s: string, t: string, u: string)
    requires !Before(t, s) && !Before(u, t)
    ensures !Before(u, s)
  {
    if s == [] || t == [] || u == [] {
    } else if s[0] == t[0] == u[0] {
      BeforeTransitive(s[1..], t[1..], u[1..]);
    }
  }

  lemma {:induction false} BeforeTotal(s: string, t: string)
    ensures s == t || Before(s, t) || Before(t, s)
    ensures !(Before(s, t) && Before(t, s)) && (s == t ==> !Before(s, t))
  {
    if s == [] || t == [] {
    } else {
      assert s == [s[0]] + s[1..] && t == [t[0]] + t[1..];
      BeforeTotal(s[1..], t[1..]);
    }
  }

  // ---- the decimal string of a number ------------------------------------------------------

  /** The number that a string of digits spells. */
  function Spelled(s: string): int {
    if s == [] then 0 else 10 * Spelled(s[..|s| - 1]) + (s[|s| - 1] as int - '0' as int)
  }

  /** The decimal string consists of digits, spells the number and starts with a zero for zero
      alone; a minus sign makes the number negative. */
  lemma {:induction false} DecimalSpells(n: nat)
    ensures Spelled(Decimal(n)) == n && forall c :: c in Decimal(n) ==> '0' <= c <= '9'
    ensures Decimal(n)[0] == '0' ==> n == 0
    ensures n != 0 ==> Decimal(0 - n as int) == "-" + Decimal(n)
  {
    if n < 10 {
      assert Spelled([]) == 0 && [Digit(n)][..0] == [];
    } else {
      DecimalSpells(n / 10);
      assert Decimal(n)[..|Decimal(n)| - 1] == Decimal(n / 10);
    }
  }

  lemma DecimalInjective(a: int, b: int)
    requires Decimal(a) == Decimal(b)
    ensures a == b
  {
    hide Decimal, Spelled;
    SignShows(a);
    SignShows(b);
    DecimalSpells(if a < 0 then -a else a);
    DecimalSpells(if b < 0 then -b else b);
  }

  lemma SignShows(a: int)
    ensures Decimal(a)[0] == '-' <==> a < 0
    ensures a < 0 ==> Decimal(a)[1..] == Decimal(-a)
  {
    if a >= 0 {
      DecimalSpells(a);
      assert Decimal(a)[0] in Decimal(a);
    }
  }

  lemma {:induction false} BeforeAppend(s: string, t: string, c: char, d: char)
    requires |s| == |t|
    ensures Before(s + [c], t + [d]) <==> Before(s, t) || (s == t && c < d)
  {
    if s != [] {
      assert (s + [c])[1..] == s[1..] + [c] && (t + [d])[1..] == t[1..] + [d];
      BeforeAppend(s[1..], t[1..], c, d);
      assert s == [s[0]] + s[1..] && t == [t[0]] + t[1..];
    } else {
      assert s + [c] == [c] && t + [d] == [d];
    }
  }

  /** Among numbers of equally many digits, dictionary order is numeric order. */
  lemma {:induction false} SameLengthOrder(a: nat, b: nat)
    requires |Decimal(a)| == |Decimal(b)|
    ensures Before(Decimal(a), Decimal(b)) <==> a < b
    ensures Decimal(a) == Decimal(b) ==> a == b
  {
    if a < 10 {
    } else {
      SameLengthOrder(a / 10, b / 10);
      BeforeAppend(Decimal(a / 10), Decimal(b / 10), Digit(a % 10), Digit(b % 10));
      if Decimal(a) == Decimal(b) {
        assert Decimal(a / 10) == Decimal(a)[..|Decimal(a)| - 1];
        assert Decimal(b / 10) == Decimal(b)[..|Decimal(b)| - 1];
        assert Digit(a % 10) == Decimal(a)[|Decimal(a)| - 1];
        assert Digit(b % 10) == Decimal(b)[|Decimal(b)| - 1];
      }
    }
  }

  /** A larger number has no fewer digits. */
  lemma {:induction false} DigitsMonotone(a: nat, b: nat)
    requires a <= b
    ensures |Decimal(a)| <= |Decimal(b)|
    decreases b
  {
    if a < 10 || b < 10 {
    } else {
      DigitsMonotone(a / 10, b / 10);
    }
  }

  lemma OneDigitMore(n: nat)
    requires n >= 10
    ensures |Decimal(n)| == |Decimal(n / 10)| + 1
  {}

  /** All numbers from a million up to ten million have seven digits. */
  lemma SevenDigits(n: nat)
    requires 1_000_000 <= n < 10_000_000
    ensures |Decimal(n)| == 7
  {
    assert |Decimal(n / 10 / 10 / 10 / 10 / 10 / 10)| == 1;
    hide Decimal;
    OneDigitMore(n / 10 / 10 / 10 / 10 / 10);
    OneDigitMore(n / 10 / 10 / 10 / 10);
    OneDigitMore(n / 10 / 10 / 10);
    OneDigitMore(n / 10 / 10);
    OneDigitMore(n / 10);
    OneDigitMore(n);
  }

  // ---- the sort -------------------------------------------------------------------------

  /** Insertion among addresses already in string order. */
  function Insert(a: int, s: seq<int>): (t: seq<int>)
    ensures multiset(t) == multiset(s) + multiset{a}
  {
    if s == [] then [a]
    else if Before(Decimal(s[0]), Decimal(a)) then
      assert s == [s[0]] + s[1..];
      [s[0]] + Insert(a, s[1..])
    else
      [a] + s
  }

  /** sort(): the addresses in the order of their decimal strings. */
  function Sort(s: seq<int>): (t: seq<int>)
    ensures multiset(t) == multiset(s)
  {
    if s == [] then []
    else
      assert s == [s[0]] + s[1..];
      Insert(s[0], Sort(s[1..]))
  }

  ghost predicate StrictlyIncreasing(s: seq<int>) {
    forall i, j :: 0 <= i < j < |s| ==> s[i] < s[j]
  }

  ghost predicate Distinct(s: seq<int>) {
    forall i, j :: 0 <= i < j < |s| ==> s[i] != s[j]
  }

  /** Addresses with n digits each. */
  ghost predicate EquallyLong(s: seq<int>, n: nat) {
    forall i :: 0 <= i < |s| ==> 0 <= s[i] && |Decimal(s[i])| == n
  }

  lemma SameElements(s: seq<int>, t: seq<int>)
    requires multiset(s) == multiset(t)
    ensures |s| == |t|
    ensures forall a :: a in s <==> a in t
  {
    assert |multiset(s)| == |multiset(t)|;
    forall a ensures a in s <==> a in t {
      assert a in s <==> a in multiset(s);
      assert a in t <==> a in multiset(t);
    }
  }

  lemma IncreasingCons(a: int, s: seq<int>)
    requires StrictlyIncreasing(s) && forall x :: x in s ==> a < x
    ensures StrictlyIncreasing([a] + s)
  {
    var t := [a] + s;
    forall i, j | 0 <= i < j < |t| ensures t[i] < t[j] {
      assert t[j] == s[j - 1] && s[j - 1] in s;
      assert i > 0 ==> t[i] == s[i - 1] && s[i - 1] < s[j - 1];
    }
  }

  lemma {:induction false} InsertDistinct(a: int, s: seq<int>)
    requires Distinct(s) && a !in s
    ensures Distinct(Insert(a, s))
  {
    hide Decimal, Before, Distinct;
    if s == [] || !Before(Decimal(s[0]), Decimal(a)) {
      DistinctCons(a, s);
      assert Insert(a, s) == [a] + s;
    } else {
      DistinctParts(s);
      InsertDistinct(a, s[1..]);
      SameElements(Insert(a, s[1..]), s[1..] + [a]);
      DistinctCons(s[0], Insert(a, s[1..]));
    }
  }

  lemma DistinctCons(a: int, s: seq<int>)
    requires Distinct(s) && a !in s
    ensures Distinct([a] + s)
  {}

  lemma DistinctParts(s: seq<int>)
    requires Distinct(s) && s != []
    ensures Distinct(s[1..]) && s[0] !in s[1..]
  {}

  lemma EmptyDistinct()
    ensures Distinct([])
  {}

  /** Whatever the order, the sort keeps every address, once. */
  lemma {:induction false} SortKeeps(s: seq<int>)
    requires Distinct(s)
    ensures Distinct(Sort(s)) && |Sort(s)| == |s| && forall a :: a in Sort(s) <==> a in s
  {
    hide Insert, Distinct;
    SameElements(Sort(s), s);
    if s == [] {
      EmptyDistinct();
    } else {
      DistinctParts(s);
      SortKeeps(s[1..]);
      InsertDistinct(s[0], Sort(s[1..]));
    }
  }

  lemma {:induction false} InsertIncreasing(a: int, s: seq<int>, n: nat)
    requires StrictlyIncreasing(s) && EquallyLong(s + [a], n) && a !in s
    ensures StrictlyIncreasing(Insert(a, s))
  {
    if s == [] {
    } else {
      assert (s + [a])[|s|] == a && (s + [a])[0] == s[0];
      SameLengthOrder(s[0], a);
      hide Decimal, Before;
      if s[0] < a {
        assert s[1..] + [a] == (s + [a])[1..];
        InsertIncreasing(a, s[1..], n);
        var t := Insert(a, s[1..]);
        SameElements(t, s[1..] + [a]);
        forall x | x in t ensures s[0] < x {
          assert x in s[1..] + [a];
        }
        IncreasingCons(s[0], t);
      } else {
        assert forall x :: x in s ==> s[0] <= x;
        IncreasingCons(a, s);
      }
    }
  }

  /** Distinct addresses with equally many digits come out in numeric order. */
  lemma {:induction false} SortIncreasing(s: seq<int>, n: nat)
    requires Distinct(s) && EquallyLong(s, n)
    ensures StrictlyIncreasing(Sort(s))
  {
    if s == [] {
    } else {
      SortIncreasing(s[1..], n);
      var t := Sort(s[1..]);
      SortKeeps(s[1..]);
      forall i | 0 <= i < |t + [s[0]]| ensures 0 <= (t + [s[0]])[i] && |Decimal((t + [s[0]])[i])| == n {
        if i < |t| {
          assert t[i] in t;
          assert t[i] in s[1..];
        }
      }
      InsertIncreasing(s[0], t, n);
    }
  }

  // ---- what the sort is for ----------------------------------------------------------------

  /** No address comes before an earlier one. */
  ghost predicate InStringOrder(s: seq<int>) {
    forall i, j :: 0 <= i < j < |s| ==> !Before(Decimal(s[j]), Decimal(s[i]))
  }

  lemma OrderedCons(a: int, s: seq<int>)
    requires InStringOrder(s) && forall x :: x in s ==> !Before(Decimal(x), Decimal(a))
    ensures InStringOrder([a] + s)
  {
    hide Decimal, Before;
    var t := [a] + s;
    forall i, j | 0 <= i < j < |t| ensures !Before(Decimal(t[j]), Decimal(t[i])) {
      assert t[j] == s[j - 1] && s[j - 1] in s;
    }
  }

  lemma OrderedParts(s: seq<int>)
    requires InStringOrder(s) && s != []
    ensures InStringOrder(s[1..]) && forall x :: x in s[1..] ==> !Before(Decimal(x), Decimal(s[0]))
  {
    hide Decimal, Before;
    var r := s[1..];
    forall i, j | 0 <= i < j < |r| ensures !Before(Decimal(r[j]), Decimal(r[i])) {
      assert r[i] == s[i + 1] && r[j] == s[j + 1];
    }
  }

  lemma {:induction false} InsertOrdered(a: int, s: seq<int>)
    requires InStringOrder(s)
    ensures InStringOrder(Insert(a, s))
  {
    hide Decimal, Before;
    if s == [] {
      OrderedCons(a, []);
    } else {
      OrderedParts(s);
      BeforeTotal(Decimal(s[0]), Decimal(a));
      if Before(Decimal(s[0]), Decimal(a)) {
        InsertOrdered(a, s[1..]);
        SameElements(Insert(a, s[1..]), s[1..] + [a]);
        OrderedCons(s[0], Insert(a, s[1..]));
      } else {
        forall x | x in s ensures !Before(Decimal(x), Decimal(a)) {
          if x != s[0] {
            assert x in s[1..];
            BeforeTransitive(Decimal(a), Decimal(s[0]), Decimal(x));
          }
        }
        OrderedCons(a, s);
      }
    }
  }

  /** Any addresses come out in the order of their decimal strings. */
  lemma {:induction false} SortOrdered(s: seq<int>)
    ensures InStringOrder(Sort(s))
  {
    hide Insert;
    if s == [] {
    } else {
      SortOrdered(s[1..]);
      InsertOrdered(s[0], Sort(s[1..]));
    }
  }

  /** And that order is the only one: any way to sort them by their strings gives the same table. */
  lemma SortUnique(s: seq<int>, t: seq<int>)
    requires multiset(t) == multiset(s) && InStringOrder(t)
    ensures t == Sort(s)
  {
    SortOrdered(s);
    SameOrdered(t, Sort(s));
  }

  lemma {:induction false} SameOrdered(s: seq<int>, t: seq<int>)
    requires multiset(s) == multiset(t) && InStringOrder(s) && InStringOrder(t)
    ensures s == t
  {
    hide Decimal, Before, InStringOrder;
    SameElements(s, t);
    if s == [] {
    } else {
      FirstIsLeast(s, t);
      FirstIsLeast(t, s);
      BeforeTotal(Decimal(s[0]), Decimal(t[0]));
      DecimalInjectiveIf(s[0], t[0]);
      assert s == [s[0]] + s[1..] && t == [t[0]] + t[1..];
      assert multiset(s[1..]) == multiset(s) - multiset{s[0]} == multiset(t[1..]);
      OrderedParts(s);
      OrderedParts(t);
      SameOrdered(s[1..], t[1..]);
    }
  }

  lemma FirstIsLeast(s: seq<int>, t: seq<int>)
    requires multiset(s) == multiset(t) && InStringOrder(s) && s != [] && t != []
    ensures !Before(Decimal(t[0]), Decimal(s[0]))
  {
    hide Decimal, Before, InStringOrder;
    SameElements(s, t);
    assert t[0] in t;
    OrderedParts(s);
    BeforeTotal(Decimal(s[0]), Decimal(s[0]));
    assert s == [s[0]] + s[1..];
  }

  lemma DecimalInjectiveIf(a: int, b: int)
    ensures Decimal(a) == Decimal(b) ==> a == b
  {
    if Decimal(a) == Decimal(b) {
      DecimalInjective(a, b);
    }
  }

  /** Past ten million the orders part: an eight-digit address sorts before a seven-digit one. */
  lemma EightDigitsSortFirst()
    ensures Before(Decimal(10_000_000), Decimal(9_999_990))
    ensures Sort([9_999_990, 10_000_000]) == [10_000_000, 9_999_990]
  {
    hide Decimal;
    OneComesFirst();
    NineComesFirst();
    assert Sort([10_000_000]) == [10_000_000];
    assert Insert(9_999_990, [10_000_000]) == [10_000_000] + Insert(9_999_990, []);
    assert [9_999_990, 10_000_000][1..] == [10_000_000];
  }

  lemma OneComesFirst()
    ensures Decimal(10_000_000)[0] == '1'
  {
    assert Decimal(100)[0] == '1';
    assert Decimal(10_000)[0] == '1';
    assert Decimal(1_000_000)[0] == '1';
  }

  lemma NineComesFirst()
    ensures Decimal(9_999_990)[0] == '9'
  {
    assert Decimal(999)[0] == '9';
    assert Decimal(99_999)[0] == '9';
  }
}
