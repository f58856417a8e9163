/** Double-cell arithmetic: the half-cell schoolbook multiply, and the signed and two-cell
    operations built on it. */
module DoubleCell {
  import opened Cell

  /** The number two cells stand for, unsigned and in two's complement. */
  function Double(w: Width, lo: int, hi: int): int {
    hi * w.Base() + lo
  }

  // ---- multiplication -------------------------------------------------------------

  /** The four half products, weighted, are the product. */
  lemma HalfProducts(b: int, al: int, ah: int, bl: int, bh: int)
    ensures (ah * b + al) * (bh * b + bl) == ah * bh * (b * b) + (ah * bl + al * bh) * b + al * bl
  {
    var x, y := ah * b, bh * b;
    assert (x + al) * (y + bl) == x * y + x * bl + al * y + al * bl;
    assert x * y == ah * bh * (b * b) by {
      assert x * y == ah * (b * (bh * b));
      assert b * (bh * b) == bh * (b * b);
    }
    assert x * bl == ah * bl * b;
    assert al * y == al * bh * b;
    assert (ah * bl + al * bh) * b == ah * bl * b + al * bh * b;
  }

  lemma HalfProductFits(b: int, x: int, y: int)
    requires 0 <= x < b && 0 <= y < b
    ensures 0 <= x * y <= (b - 1) * (b - 1) < b * b
  {
    MulMono(x, b - 1, y);
    MulMono(y, b - 1, b - 1);
  }

  /** A cell is its two halves, and shifting it up by half a cell keeps the low half and
      loses exactly the high one. */
  lemma Halves(w: Width, x: int)
    requires 0 <= x < w.Base()
    ensures Shr(x, w.HalfBits()) < w.B() && x == Shr(x, w.HalfBits()) * w.B() + Low(w, x)
    ensures Shl(w, x, w.HalfBits()) == Low(w, x) * w.B()
    ensures x * w.B() == Shr(x, w.HalfBits()) * w.Base() + Low(w, x) * w.B()
  {
    hide Pow2, Wrap;
    BaseIs(w);
    var h, l := HalfParts(x, w.B());
    WrapUnique(w, x * w.B(), l * w.B(), h);
  }

  lemma HalfParts(x: int, b: int) returns (h: int, l: int)
    requires 2 <= b && 0 <= x < b * b
    ensures h == x / b && l == x % b && 0 <= h < b && 0 <= l < b && x == h * b + l
    ensures x * b == h * (b * b) + l * b && 0 <= l * b < b * b
  {
    h, l := x / b, x % b;
    HalfRange(x, b);
    HalfScaled(x, b, h, l);
  }

  lemma HalfRange(x: int, b: int)
    requires 2 <= b && 0 <= x < b * b
    ensures 0 <= x / b < b && 0 <= x % b < b && x == x / b * b + x % b
  {
    DivBounds(x, b);
    DivBelow(x, b, b);
  }

  lemma HalfScaled(x: int, b: int, h: int, l: int)
    requires x == h * b + l && 0 <= l < b
    ensures x * b == h * (b * b) + l * b && 0 <= l * b < b * b
  {
    Distribute2(h * b, l, b);
    Reassociate(h, b, b);
    MulMono(l, b - 1, b);
    MulMono(0, l, b);
    Distribute2(b, -1, b);
  }

  lemma Distribute2(x: int, y: int, m: int)
    ensures (x + y) * m == x * m + y * m
  {}

  lemma Reassociate(x: int, y: int, z: int)
    ensures x * y * z == x * (y * z) == x * z * y
  {}

  lemma Distribute4(x: int, y: int, z: int, u: int, m: int)
    ensures (x + y + z + u) * m == x * m + y * m + z * m + u * m
  {}

  /** What a carry of at most two weighs. */
  function CarryWeight(w: Width, carry: nat): int {
    if carry == 0 then 0 else if carry == 1 then w.Base() else w.Base() + w.Base()
  }

  /** Comparing a wrapped sum with one addend finds the carry. */
  lemma AddCarry(w: Width, x: nat, y: nat)
    requires x < w.Base() && y < w.Base()
    ensures Wrap(w, x + y) + (if Wrap(w, x + y) < y then w.Base() else 0) == x + y
  {
    var over := x + y >= w.Base();
    WrapUnique(w, x + y, if over then x + y - w.Base() else x + y, if over then 1 else 0);
  }

  /** Two additions in a row, their carries counted. */
  lemma TwoCarries(w: Width, x: nat, y: nat, z: nat)
    requires x < w.Base() && y < w.Base() && z < w.Base()
    ensures
      var s := Wrap(w, x + y);
      var t := Wrap(w, s + z);
      x + y + z == CarryWeight(w, (if s < y then 1 else 0) + (if t < z then 1 else 0)) + t
  {
    hide Wrap;
    AddCarry(w, x, y);
    AddCarry(w, Wrap(w, x + y), z);
  }

  /** p4Mulu: the exact product of two cells, in two cells. */
  method Mulu(w: Width, a: nat, b: nat) returns (c0: nat, c1: nat)
    requires a < w.Base() && b < w.Base()
    ensures c0 < w.Base() && c1 < w.Base()
    ensures Double(w, c0, c1) == a * b
  {
    hide Wrap, Shl, Shr, Low, Pow2, Double, CarryWeight;
    var half := w.HalfBits();
    var al := Low(w, a);
    var ah := Shr(a, half);
    var bl := Low(w, b);
    var bh := Shr(b, half);

    var al_bl := Wrap(w, al * bl);
    var al_bh := Wrap(w, al * bh);
    var ah_bl := Wrap(w, ah * bl);
    var ah_bh := Wrap(w, ah * bh);

    c0 := Wrap(w, Shl(w, al_bh, half) + al_bl);
    var carry := if c0 < al_bl then 1 else 0;
    TwoCarries(w, Shl(w, al_bh, half), al_bl, Shl(w, ah_bl, half));
    c0 := Wrap(w, c0 + Shl(w, ah_bl, half));
    carry := carry + if c0 < Shl(w, ah_bl, half) then 1 else 0;
    c1 := Wrap(w, ah_bh + Shr(ah_bl, half) + Shr(al_bh, half) + carry);

    SumOfPartials(w, a, b, carry, c0);
  }

  /** The partial products, shifted into place and summed with the carries counted, are the
      product, and its high cell does not overflow. */
  lemma SumOfPartials(w: Width, a: nat, b: nat, carry: nat, c0: nat)
    requires a < w.Base() && b < w.Base() && carry <= 2 && c0 < w.Base()
    requires
      var half := w.HalfBits();
      var al, ah, bl, bh := Low(w, a), Shr(a, half), Low(w, b), Shr(b, half);
      Shl(w, Wrap(w, al * bh), half) + Wrap(w, al * bl) + Shl(w, Wrap(w, ah * bl), half)
      == CarryWeight(w, carry) + c0
    ensures
      var half := w.HalfBits();
      var al, ah, bl, bh := Low(w, a), Shr(a, half), Low(w, b), Shr(b, half);
      Double(w, c0, Wrap(w, Wrap(w, ah * bh) + Shr(Wrap(w, ah * bl), half) + Shr(Wrap(w, al * bh), half) + carry))
      == a * b
  {
    hide Wrap, Shl, Shr, Low, Pow2;
    var half := w.HalfBits();
    var al, ah, bl, bh := Low(w, a), Shr(a, half), Low(w, b), Shr(b, half);
    Halves(w, a);
    Halves(w, b);
    PartialExact(w, al, bl);
    PartialExact(w, al, bh);
    PartialExact(w, ah, bl);
    PartialExact(w, ah, bh);
    Halves(w, al * bh);
    Halves(w, ah * bl);
    HalfProducts(w.B(), al, ah, bl, bh);
    Distribute2(ah * bl, al * bh, w.B());
    var high := ah * bh + Shr(ah * bl, half) + Shr(al * bh, half) + carry;
    assert CarryWeight(w, carry) == carry * w.Base();
    Distribute4(ah * bh, Shr(ah * bl, half), Shr(al * bh, half), carry, w.Base());
    ProductHighFits(w, a, b, high, c0);
  }

  lemma PartialExact(w: Width, x: nat, y: nat)
    requires x < w.B() && y < w.B()
    ensures Wrap(w, x * y) == x * y
  {
    HalfProductFits(w.B(), x, y);
    WrapUnique(w, x * y, x * y, 0);
  }

  /** The high cell of a product of two cells does not overflow. */
  lemma ProductHighFits(w: Width, a: nat, b: nat, high: int, lo: nat)
    requires a < w.Base() && b < w.Base() && lo < w.Base()
    requires a * b == high * w.Base() + lo
    ensures 0 <= high < w.Base() && Wrap(w, high) == high
  {
    var m := w.Base();
    MulMono(a, m, b);
    MulMono(b, m - 1, m);
    DivModUnique(a * b, m, high, lo);
    DivBounds(a * b, m);
    DivBelow(a * b, m, m);
    WrapUnique(w, high, high, 0);
  }

  // ---- two-cell addition, subtraction and negation ------------------------------------

  /** A pair of cells in memory, low cell first. */
  ghost predicate IsPair(w: Width, a: array<nat>)
    reads a
  {
    a.Length == 2 && a[0] < w.Base() && a[1] < w.Base()
  }

  ghost function Pair(w: Width, a: array<nat>): int
    requires IsPair(w, a)
    reads a
  {
    Double(w, a[0], a[1])
  }

  /** A number reduced to two cells. */
  function Wrap2(w: Width, x: int): (u: nat)
    ensures u < w.Base() * w.Base()
  {
    MulMono(1, w.Base(), w.Base());
    x % (w.Base() * w.Base())
  }

  lemma Wrap2Of(w: Width, x: int) returns (k: int)
    ensures x == k * (w.Base() * w.Base()) + Wrap2(w, x)
  {
    MulMono(1, w.Base(), w.Base());
    k := x / (w.Base() * w.Base());
  }

  lemma Wrap2Unique(w: Width, x: int, lo: nat, hi: nat, k: int)
    requires lo < w.Base() && hi < w.Base()
    requires x == k * (w.Base() * w.Base()) + Double(w, lo, hi)
    ensures Wrap2(w, x) == Double(w, lo, hi)
  {
    var m := w.Base();
    MulMono(0, hi, m);
    MulMono(hi, m - 1, m);
    Distribute2(m, -1, m);
    MulMono(1, m, m);
    DivModUnique(x, m * m, k, Double(w, lo, hi));
  }

  /** The carry out of the low cells goes into the high ones. */
  lemma SumOfPairs(w: Width, a0: nat, a1: nat, b0: nat, b1: nat)
    requires a0 < w.Base() && a1 < w.Base() && b0 < w.Base() && b1 < w.Base()
    ensures
      var c0 := Wrap(w, a0 + b0);
      Double(w, c0, Wrap(w, a1 + b1 + (if c0 < b0 then 1 else 0)))
      == Wrap2(w, Double(w, a0, a1) + Double(w, b0, b1))
  {
    hide Wrap, Wrap2, Width.Base;
    AddCarry(w, a0, b0);
    var c0 := Wrap(w, a0 + b0);
    var carry := if c0 < b0 then 1 else 0;
    Distribute4(a1, b1, carry, 0, w.Base());
    CarryUp(w, Double(w, a0, a1) + Double(w, b0, b1), c0, a1 + b1 + carry);
  }

  /** The borrow out of the low cells comes from the high ones. */
  lemma DifferenceOfPairs(w: Width, a0: nat, a1: nat, b0: nat, b1: nat)
    requires a0 < w.Base() && a1 < w.Base() && b0 < w.Base() && b1 < w.Base()
    ensures
      var c0 := Wrap(w, a0 as int - b0);
      Double(w, c0, Wrap(w, a1 as int - b1 - (if a0 < b0 then 1 else 0)))
      == Wrap2(w, Double(w, a0, a1) - Double(w, b0, b1))
  {
    hide Wrap, Wrap2, Width.Base;
    var borrow := if a0 < b0 then 1 else 0;
    var c0 := if a0 < b0 then a0 - b0 + w.Base() else a0 - b0;
    Negated(borrow, w.Base());
    WrapUnique(w, a0 - b0, c0, 0 - borrow);
    Distribute4(a1, 0 - b1 as int, 0 - borrow as int, 0, w.Base());
    Negated(b1, w.Base());
    CarryUp(w, Double(w, a0, a1) - Double(w, b0, b1), c0, a1 - b1 - borrow);
  }

  lemma Negated(x: int, m: int)
    ensures (0 - x) * m == 0 - x * m
  {}

  lemma WrapMultiple(w: Width, x: int)
    ensures x == x / w.Base() * w.Base() + Wrap(w, x)
  {}

  /** Wrapping the high cell of a two-cell number wraps the number. */
  lemma CarryUp(w: Width, x: int, lo: nat, high: int)
    requires lo < w.Base() && x == high * w.Base() + lo
    ensures Double(w, lo, Wrap(w, high)) == Wrap2(w, x)
  {
    var m, k := w.Base(), high / w.Base();
    WrapMultiple(w, high);
    hide Wrap;
    Distribute2(k * m, Wrap(w, high), m);
    Reassociate(k, m, m);
    Wrap2Unique(w, x, lo, Wrap(w, high), k);
  }

  /** p4Dadd: the sum modulo the square of the base.  The low cell of the sum is stored
      before the low cell of b is read again, so c must not be b. */
  method Dadd(w: Width, a: array<nat>, b: array<nat>, c: array<nat>)
    requires IsPair(w, a) && IsPair(w, b) && c.Length == 2 && c != b
    modifies c
    ensures IsPair(w, c) && Pair(w, c) == Wrap2(w, old(Pair(w, a)) + old(Pair(w, b)))
  {
    hide Wrap, Wrap2, Double;
    SumOfPairs(w, a[0], a[1], b[0], b[1]);
    c[0] := Wrap(w, a[0] + b[0]);
    c[1] := Wrap(w, a[1] + b[1] + (if c[0] < b[0] then 1 else 0));
  }

  /** p4Dsub: the difference modulo the square of the base. */
  method Dsub(w: Width, a: array<nat>, b: array<nat>, c: array<nat>)
    requires IsPair(w, a) && IsPair(w, b) && c.Length == 2 && c != a && c != b
    modifies c
    ensures IsPair(w, c) && Pair(w, c) == Wrap2(w, old(Pair(w, a)) - old(Pair(w, b)))
  {
    hide Wrap, Wrap2, Double;
    DifferenceOfPairs(w, a[0], a[1], b[0], b[1]);
    c[0] := Wrap(w, a[0] as int - b[0]);
    c[1] := Wrap(w, a[1] as int - b[1] - (if a[0] < b[0] then 1 else 0));
  }

  /** p4Dneg: two's complement negation. */
  method Dneg(w: Width, b: array<nat>, c: array<nat>)
    requires IsPair(w, b) && c.Length == 2 && c != b
    modifies c
    ensures IsPair(w, c) && Pair(w, c) == Wrap2(w, -old(Pair(w, b)))
  {
    hide Wrap2, Double, Wrap;
    ghost var b0, b1 := b[0], b[1];
    var a := new nat[2][0, 0];
    ZeroPair(w);
    assert IsPair(w, a) && Pair(w, a) == 0;
    assert IsPair(w, b) && Pair(w, b) == Double(w, b0, b1);
    Dsub(w, a, b, c);
  }

  lemma ZeroPair(w: Width)
    ensures Double(w, 0, 0) == 0
  {}

  // ---- signed multiplication -------------------------------------------------------

  /** The number two cells stand for in two's complement. */
  function SignedDouble(w: Width, lo: nat, hi: nat): int
    requires hi < w.Base()
  {
    Double(w, lo, Signed(w, hi))
  }

  function Abs(x: int): nat {
    if x < 0 then -x else x
  }

  /** The magnitude of a signed cell; the minimum integer is its own negation. */
  function Magnitude(w: Width, a: nat): (u: nat)
    requires a < w.Base()
    ensures u < w.Base()
  {
    if Signed(w, a) < 0 then Wrap(w, 0 - a as int) else a
  }

  lemma MagnitudeIsAbs(w: Width, a: nat)
    requires a < w.Base()
    ensures Magnitude(w, a) == Abs(Signed(w, a)) && 2 * Magnitude(w, a) <= w.Base()
  {
    EvenBase(w);
    if Signed(w, a) < 0 {
      WrapUnique(w, 0 - a as int, w.Base() - a, -1);
    }
  }

  lemma EvenBase(w: Width)
    ensures w.B() % 2 == 0 && w.Base() % 4 == 0
  {
    if w.W32? {} else {}
  }

  /** The negation of a two-cell number: -lo, then ~hi and a carry when -lo is zero. */
  function NegateLow(w: Width, lo: nat): nat {
    Wrap(w, 0 - lo as int)
  }

  function NegateHigh(w: Width, lo: nat, hi: nat): nat {
    Wrap(w, w.Base() - 1 - hi + (if NegateLow(w, lo) == 0 then 1 else 0))
  }

  lemma NegateLowIs(w: Width, lo: nat)
    requires lo < w.Base()
    ensures NegateLow(w, lo) == if lo == 0 then 0 else w.Base() - lo
  {
    WrapUnique(w, 0 - lo as int, if lo == 0 then 0 else w.Base() - lo, if lo == 0 then 0 else -1);
  }

  lemma NegateSum(m: int, lo: int, hi: int, low: int, high: int)
    requires low == (if lo == 0 then 0 else m - lo) && high == if lo == 0 then 0 - hi else -1 - hi
    ensures 0 - (hi * m + lo) == high * m + low
  {
    Negated(hi, m);
    Distribute2(0 - hi, -1, m);
  }

  lemma NegateDouble(w: Width, lo: nat, hi: nat)
    requires lo < w.Base() && hi < w.Base()
    ensures NegateLow(w, lo) < w.Base() && NegateHigh(w, lo, hi) < w.Base()
    ensures Double(w, NegateLow(w, lo), NegateHigh(w, lo, hi)) == Wrap2(w, 0 - Double(w, lo, hi))
  {
    hide Wrap, Wrap2, NegateLow, Width.Base;
    NegateLowIs(w, lo);
    var high := if lo == 0 then 0 - hi as int else -1 - hi;
    WrapTurn(w, high);
    NegateSum(w.Base(), lo, hi, NegateLow(w, lo), high);
    CarryUp(w, 0 - Double(w, lo, hi), NegateLow(w, lo), high);
  }

  lemma WrapTurn(w: Width, x: int)
    ensures Wrap(w, x + w.Base()) == Wrap(w, x)
  {
    WrapMultiple(w, x);
    Distribute2(x / w.Base(), 1, w.Base());
    WrapUnique(w, x + w.Base(), Wrap(w, x), x / w.Base() + 1);
  }

  /** Two cells read in two's complement and read as unsigned. */
  lemma SignedDoubleReading(w: Width, lo: nat, hi: nat)
    requires lo < w.Base() && hi < w.Base()
    ensures
      var m2, d := w.Base() * w.Base(), Double(w, lo, hi);
      SignedDouble(w, lo, hi) == (if 2 * d < m2 then d else d - m2) && 0 <= d < m2
    ensures Signed(w, hi) < 0 <==> SignedDouble(w, lo, hi) < 0
  {
    var m := w.Base();
    EvenBase(w);
    var h := m / 2;
    Distribute2(h, h, m);
    Distribute2(hi, -m, m);
    Negated(m, m);
    MulMono(0, hi, m);
    MulMono(hi, m - 1, m);
    Distribute2(m, -1, m);
    if hi < h {
      MulMono(hi, h - 1, m);
      Distribute2(h, -1, m);
    } else {
      MulMono(h, hi, m);
    }
  }

  /** Negating a two-cell number negates its signed reading, as long as the result has one;
      and negating a negative one gives its magnitude, always. */
  lemma NegateSigned(w: Width, lo: nat, hi: nat)
    requires lo < w.Base() && hi < w.Base()
    ensures NegateLow(w, lo) < w.Base() && NegateHigh(w, lo, hi) < w.Base()
    ensures 2 * Double(w, lo, hi) <= w.Base() * w.Base() ==>
      SignedDouble(w, NegateLow(w, lo), NegateHigh(w, lo, hi)) == 0 - Double(w, lo, hi)
    ensures Signed(w, hi) < 0 ==>
      Double(w, NegateLow(w, lo), NegateHigh(w, lo, hi)) == 0 - SignedDouble(w, lo, hi)
  {
    hide *;
    NegateDouble(w, lo, hi);
    SignedDoubleReading(w, lo, hi);
    SignedDoubleReading(w, NegateLow(w, lo), NegateHigh(w, lo, hi));
    Wrap2Negated(w, Double(w, lo, hi));
    NegateReading(w.Base() * w.Base(), Double(w, lo, hi), Double(w, NegateLow(w, lo), NegateHigh(w, lo, hi)),
      SignedDouble(w, lo, hi), SignedDouble(w, NegateLow(w, lo), NegateHigh(w, lo, hi)));
  }

  lemma Wrap2Negated(w: Width, d: nat)
    requires d < w.Base() * w.Base()
    ensures Wrap2(w, 0 - d) == if d == 0 then 0 else w.Base() * w.Base() - d
  {
    var m2 := w.Base() * w.Base();
    DivModUnique(0 - d, m2, if d == 0 then 0 else -1, if d == 0 then 0 else m2 - d);
  }

  lemma NegateReading(m2: int, d: int, n: int, sd: int, sn: int)
    requires 0 <= d < m2 && n == (if d == 0 then 0 else m2 - d)
    requires sd == (if 2 * d < m2 then d else d - m2) && sn == (if 2 * n < m2 then n else n - m2)
    ensures 2 * d <= m2 ==> sn == 0 - d
    ensures sd < 0 ==> n == 0 - sd
  {}

  /** p4Muls: the exact signed product of two signed cells, for every pair of operands. */
  method Muls(w: Width, a: nat, b: nat) returns (c0: nat, c1: nat)
    requires a < w.Base() && b < w.Base()
    ensures c0 < w.Base() && c1 < w.Base()
    ensures SignedDouble(w, c0, c1) == Signed(w, a) * Signed(w, b)
  {
    hide Wrap, Signed, Double, SignedDouble, Magnitude, NegateLow, NegateHigh;
    // the sign bit of a ^ b
    var sign := (Signed(w, a) < 0) != (Signed(w, b) < 0);
    c0, c1 := Mulu(w, Magnitude(w, a), Magnitude(w, b));
    SignedProduct(w, a, b, c0, c1);
    if sign {
      c0, c1 := NegateLow(w, c0), NegateHigh(w, c0, c1);
    }
  }

  lemma SignedProduct(w: Width, a: nat, b: nat, c0: nat, c1: nat)
    requires a < w.Base() && b < w.Base() && c0 < w.Base() && c1 < w.Base()
    requires Double(w, c0, c1) == Magnitude(w, a) * Magnitude(w, b)
    ensures NegateLow(w, c0) < w.Base() && NegateHigh(w, c0, c1) < w.Base()
    ensures
      var p := Signed(w, a) * Signed(w, b);
      if (Signed(w, a) < 0) != (Signed(w, b) < 0)
      then SignedDouble(w, NegateLow(w, c0), NegateHigh(w, c0, c1)) == p
      else SignedDouble(w, c0, c1) == p
  {
    MagnitudeIsAbs(w, a);
    MagnitudeIsAbs(w, b);
    NegateSigned(w, c0, c1);
    SignedDoubleReading(w, c0, c1);
    hide Wrap, Double, SignedDouble, Magnitude, NegateLow, NegateHigh;
    var x, y := Signed(w, a), Signed(w, b);
    SignsOfProduct(x, y);
    QuarterSquare(Abs(x), Abs(y), w.Base());
  }

  lemma SignsOfProduct(x: int, y: int)
    ensures Abs(x) * Abs(y) == if (x < 0) != (y < 0) then 0 - x * y else x * y
  {}

  lemma QuarterSquare(x: nat, y: nat, m: nat)
    requires 2 * x <= m && 2 * y <= m && 0 < m
    ensures 2 * (x * y) < m * m
  {
    MulMono(2 * x, m, y);
    Reassociate(2, x, y);
    MulMono(y, m - 1, m);
    MulMono(y, m, m);
    if y < m {
      Distribute2(m, -1, m);
    }
  }
}
