/** Machine cells: the two supported widths, and the C operators on unsigned cells
    written out on integers, with every wrap-around explicit. */
module Cell {

  /** The two cell widths the headers support; a half cell has half as many bits. */
  datatype Width = W32 | W64 {
    function HalfBits(): nat {
      if W32? then 16 else 32
    }

    function Bits(): nat {
      2 * HalfBits()
    }

    /** The half base: one more than the largest half cell. */
    function B(): (b: int)
      ensures 2 <= b
    {
      if W32? then 0x1_0000 else 0x1_0000_0000
    }

    /** One more than the largest unsigned cell. */
    function Base(): (b: int)
      ensures 4 <= b
    {
      if W32? then 0x1_0000_0000 else 0x1_0000_0000_0000_0000
    }
  }

  lemma BaseIs(w: Width)
    ensures w.B() == Pow2(w.HalfBits()) && w.Base() == w.B() * w.B() && w.Base() == Pow2(w.Bits())
  {
    PowersOfTwo();
    Pow2Add(w.HalfBits(), w.HalfBits());
  }

  function Pow2(n: nat): (p: nat)
    ensures 1 <= p
  {
    if n == 0 then 1 else 2 * Pow2(n - 1)
  }

  lemma {:induction false} Pow2Add(a: nat, b: nat)
    ensures Pow2(a + b) == Pow2(a) * Pow2(b)
  {
    if a == 0 {
    } else {
      Pow2Add(a - 1, b);
      assert Pow2(a + b) == 2 * Pow2(a - 1 + b);
    }
  }

  lemma PowersOfTwo()
    ensures Pow2(16) == 0x1_0000 && Pow2(32) == 0x1_0000_0000
  {
    assert Pow2(8) == 0x100;
    Pow2Add(8, 8);
    Pow2Add(16, 16);
  }

  /** x + y and x - y, and x * y, as the machine computes them on unsigned cells. */
  function Wrap(w: Width, x: int): (u: nat)
    ensures u < w.Base()
  {
    x % w.Base()
  }

  /** x << s and x >> s. */
  function Shl(w: Width, x: nat, s: nat): (u: nat)
    ensures u < w.Base()
  {
    Wrap(w, x * Pow2(s))
  }

  function Shr(x: nat, s: nat): nat {
    DivBounds(x, Pow2(s));
    x / Pow2(s)
  }

  /** x / d and x % d on unsigned cells. */
  function Div(x: nat, d: nat): nat
    requires 0 < d
  {
    DivBounds(x, d);
    x / d
  }

  function Mod(x: nat, d: nat): nat
    requires 0 < d
  {
    x % d
  }

  lemma DivMod(x: nat, d: nat)
    requires 0 < d
    ensures x == Div(x, d) * d + Mod(x, d) && Mod(x, d) < d
  {}

  /** The low half of a cell: the cast to a half cell. */
  function Low(w: Width, x: nat): (l: nat)
    ensures l < w.B()
  {
    x % w.B()
  }

  /** Bitwise or of two naturals, bit by bit. */
  function Or(a: nat, b: nat): nat
    decreases a + b
  {
    if a == 0 then b
    else if b == 0 then a
    else (if a % 2 == 1 || b % 2 == 1 then 1 else 0) + 2 * Or(a / 2, b / 2)
  }

  /** Or-ing a number below 2^k into a multiple of 2^k loses nothing: it is addition. */
  lemma {:induction false} OrDisjoint(a: nat, b: nat, k: nat)
    requires b < Pow2(k)
    ensures Or(a * Pow2(k), b) == a * Pow2(k) + b
  {
    if k == 0 || a == 0 || b == 0 {
    } else {
      var p := Pow2(k - 1);
      assert a * Pow2(k) == 2 * (a * p);
      assert a * p > 0;
      OrDisjoint(a, b / 2, k - 1);
    }
  }

  /** The signed reading of an unsigned cell, and the unsigned cell of a signed value. */
  function Signed(w: Width, u: nat): (n: int)
    requires u < w.Base()
    ensures IsSigned(w, n) && Wrap(w, n) == u
  {
    var n := if u < w.Base() / 2 then u else u - w.Base();
    WrapUnique(w, n, u, if u < w.Base() / 2 then 0 else -1);
    n
  }

  predicate IsSigned(w: Width, n: int) {
    -w.Base() <= 2 * n && 2 * n < w.Base()
  }

  lemma WrapUnique(w: Width, x: int, u: nat, k: int)
    requires x == k * w.Base() + u && u < w.Base()
    ensures Wrap(w, x) == u
  {
    DivModUnique(x, w.Base(), k, u);
  }

  /** Quotient and remainder of a positive divisor are unique. */
  lemma DivModUnique(x: int, d: int, q: int, r: int)
    requires d > 0 && x == q * d + r && 0 <= r < d
    ensures x / d == q && x % d == r
  {
    var k := x / d - q;
    assert x == (x / d) * d + x % d;
    assert k * d == r - x % d by {
      assert k * d == (x / d) * d - q * d;
    }
    SmallMultipleIsZero(k, d);
  }

  lemma SmallMultipleIsZero(k: int, d: int)
    requires d > 0 && -d < k * d < d
    ensures k == 0
  {
    if k >= 1 {
      MulMono(1, k, d);
    } else if k <= -1 {
      MulMono(k, -1, d);
    }
  }

  lemma DivBounds(x: int, d: int)
    requires 0 <= x && 0 < d
    ensures 0 <= x / d <= x
  {
    var q := x / d;
    assert x == q * d + x % d;
    if q < 0 {
      MulMono(q, -1, d);
    } else {
      MulMono(1, d, q);
    }
  }

  lemma DivBelow(x: int, d: int, c: int)
    requires 0 < d && x < c * d
    ensures x / d < c
  {
    var q := x / d;
    assert x == q * d + x % d;
    assert (q - c) * d == q * d - c * d;
    MulMono(0, if q >= c then q - c else 0, d);
  }

  lemma MulMono(a: int, b: int, c: int)
    requires a <= b && 0 <= c
    ensures a * c <= b * c && c * a <= c * b
  {
    assert b * c == a * c + (b - a) * c;
  }
}
