/** The branch-free leading-zero count: smear the top set bit rightwards, then count the
    ones in parallel.  The smear is on numbers, the count on bit patterns. */
module LeadZero {
  import opened Cell

  /** The bit pattern of a number, one shift for each of its binary digits. */
  function Bits(n: nat): bv64 {
    if n == 0 then 0 else Append(Bits(n / 2), n % 2 == 1)
  }

  function Append(b: bv64, one: bool): bv64 {
    if one then (b << 1) | 1 else b << 1
  }

  /** All the bits of a cell of the given width. */
  function CellMask(w: Width): bv64 {
    if w.W32? then 0xffff_ffff else 0xffff_ffff_ffff_ffff
  }

  /** How many binary digits a number needs; the leading zeros of a cell are the rest of
      its bits. */
  function BitLength(n: nat): (l: nat)
    ensures n < Pow2(l)
    ensures n != 0 ==> l != 0 && Pow2(l - 1) <= n
  {
    if n == 0 then 0 else 1 + BitLength(n / 2)
  }

  lemma {:induction false} BitLengthFits(n: nat, k: nat)
    requires n < Pow2(k)
    ensures BitLength(n) <= k
  {
    if n == 0 {
    } else {
      BitLengthFits(n / 2, k - 1);
    }
  }

  // ---- the smear ------------------------------------------------------------------------------

  /** x |= x >> s */
  function Fold(x: nat, s: nat): nat {
    Or(x, Shr(x, s))
  }

  /** The cell after the smear. */
  function Smear(w: Width, x: nat): nat {
    var y := Fold(Fold(Fold(Fold(Fold(x, 1), 2), 4), 8), 16);
    if w.W64? then Fold(y, 32) else y
  }

  lemma OrStep(a: nat, b: nat)
    ensures Or(a, b) == (if a % 2 == 1 || b % 2 == 1 then 1 else 0) + 2 * Or(a / 2, b / 2)
  {}

  lemma {:induction false} OrBounds(a: nat, b: nat, k: nat)
    requires a < Pow2(k) && b < Pow2(k)
    ensures b <= Or(a, b) < Pow2(k)
  {
    OrStep(a, b);
    if k == 0 {
    } else {
      OrBounds(a / 2, b / 2, k - 1);
    }
  }

  /** Or-ing a number below 2^k leaves what is above alone. */
  lemma {:induction false} OrAbove(a: nat, c: nat, d: nat, k: nat)
    requires c < Pow2(k) && d < Pow2(k)
    ensures Or(a * Pow2(k) + c, d) == a * Pow2(k) + Or(c, d)
  {
    if k == 0 {
    } else {
      var p := Pow2(k - 1);
      TwiceAbove(a, p, c);
      OrAbove(a, c / 2, d / 2, k - 1);
      OrStep(c, d);
      OrStep(a * Pow2(k) + c, d);
    }
  }

  lemma TwiceAbove(a: nat, p: nat, c: nat)
    ensures a * (2 * p) == 2 * (a * p) && 0 <= a * p
    ensures (a * (2 * p) + c) / 2 == a * p + c / 2 && (a * (2 * p) + c) % 2 == c % 2
  {
    assert a * (2 * p) == 2 * (a * p);
    MulMono(0, a, p);
  }

  /** Of l bits the top k are ones; all of them if k is at least l. */
  predicate Top(x: nat, l: nat, k: nat) {
    x < Pow2(l) <= x + Pow2(if k <= l then l - k else 0)
  }

  /** Folding twice as many ones out of k. */
  lemma FoldTop(x: nat, l: nat, k: nat)
    requires Top(x, l, k) && k > 0
    ensures Top(Fold(x, k), l, 2 * k)
  {
    hide Pow2, Fold;
    if k >= l {
      NothingBelow(x, l, k);
    } else {
      var j: nat := l - k;
      var u := Pow2(if 2 * k <= l then l - 2 * k else 0);
      Pow2Add(k, j);
      Rest(l, k);
      FoldBounds(x, k, j, u);
    }
  }

  lemma FoldBounds(x: nat, k: nat, j: nat, u: nat)
    requires x < Pow2(k) * Pow2(j) <= x + Pow2(j) && 1 <= u <= Pow2(j) <= u * Pow2(k)
    ensures Fold(x, k) < Pow2(k) * Pow2(j) <= Fold(x, k) + u
  {
    hide *;
    var t := Pow2(j);
    ShrBounds(x, k, t, u);
    var q: nat, c: nat := TopPart(x, Pow2(k), t);
    FoldOverTop(x, k, q, j, c);
  }

  /** The fold keeps the ones above and brings the shifted ones below. */
  lemma FoldOverTop(x: nat, k: nat, q: nat, j: nat, c: nat)
    requires x == q * Pow2(j) + c && c < Pow2(j) && Shr(x, k) < Pow2(j)
    ensures q * Pow2(j) + Shr(x, k) <= Fold(x, k) < q * Pow2(j) + Pow2(j)
  {
    hide Pow2, Or, Shr;
    var d := Shr(x, k);
    OrAbove(q, c, d, j);
    OrBounds(c, d, j);
  }

  /** Shifted by their number or more, the bits are gone. */
  lemma NothingBelow(x: nat, l: nat, k: nat)
    requires x < Pow2(l) && l <= k
    ensures Fold(x, k) == x
  {
    hide Pow2;
    PowerGrows(l, k);
    DivModUnique(x, Pow2(k), 0, x);
  }

  lemma PowerGrows(l: nat, k: nat)
    requires l <= k
    ensures Pow2(l) <= Pow2(k)
  {
    Pow2Add(l, k - l);
    MulMono(1, Pow2(k - l), Pow2(l));
  }

  /** What the second half of the ones leaves of the first's rest. */
  lemma Rest(l: nat, k: nat)
    requires 0 < k < l
    ensures
      var p, t, u := Pow2(k), Pow2(l - k), Pow2(if 2 * k <= l then l - 2 * k else 0);
      1 <= u && 1 <= t && 1 <= p && u <= t && t <= u * p
  {
    hide Pow2;
    if 2 * k <= l {
      Pow2Add(l - 2 * k, k);
      PowerGrows(l - 2 * k, l - k);
    } else {
      PowerGrows(0, l - k);
      PowerGrows(l - k, k);
      assert Pow2(0) == 1 by {
        OneIsPower();
      }
    }
  }

  lemma OneIsPower()
    ensures Pow2(0) == 1
  {}

  /** The shift brings down at least t - u of the ones. */
  lemma ShrBounds(x: nat, k: nat, t: nat, u: nat)
    requires x < Pow2(k) * t <= x + t && 1 <= u <= t <= u * Pow2(k)
    ensures t - u <= Shr(x, k) < t
  {
    hide Pow2;
    var p, d := Pow2(k), x / Pow2(k);
    DivMod(x, p);
    assert x < (d + 1) * p;
    assert p * t == t * p;
    DivBelow(x, p, t);
    if d < t - u {
      MulMono(d + 1, t - u, p);
      Distribute(t, u, p);
    }
  }

  lemma Distribute(x: int, y: int, p: int)
    ensures (x - y) * p == x * p - y * p
  {}

  lemma TopPart(x: nat, p: nat, t: nat) returns (q: nat, c: nat)
    requires 1 <= p && x < p * t <= x + t
    ensures q * t + t == p * t && x == q * t + c && c < t
  {
    Distribute(p, 1, t);
    q, c := p - 1, x - (p * t - t);
  }

  /** The smear makes ones of all the cell's bits from its topmost set bit down. */
  lemma SmearTop(w: Width, x: nat)
    requires x < w.Base()
    ensures Smear(w, x) == Pow2(BitLength(x)) - 1
  {
    hide Pow2, Fold;
    var l := BitLength(x);
    BaseIs(w);
    BitLengthFits(x, w.Bits());
    FirstBit(x);
    FoldTop(x, l, 1);
    var x1 := Fold(x, 1);
    FoldTop(x1, l, 2);
    var x2 := Fold(x1, 2);
    FoldTop(x2, l, 4);
    var x4 := Fold(x2, 4);
    FoldTop(x4, l, 8);
    var x8 := Fold(x4, 8);
    FoldTop(x8, l, 16);
    if w.W64? {
      FoldTop(Fold(x8, 16), l, 32);
    }
    OneIsPower();
  }

  lemma FirstBit(x: nat)
    ensures Top(x, BitLength(x), 1)
  {
    if x != 0 {
      assert Pow2(BitLength(x)) == 2 * Pow2(BitLength(x) - 1);
    }
  }

  // ---- the count -----------------------------------------------------------------------------

  /** The count of ones, in parallel, within the cell. */
  function CountOnes(w: Width, x0: bv64): bv8 {
    var c := CellMask(w);
    var x := (x0 - ((x0 >> 1) & (0x5555_5555_5555_5555 & c))) & c;
    var x := (((x >> 2) & (0x3333_3333_3333_3333 & c)) + (x & (0x3333_3333_3333_3333 & c))) & c;
    var x := (((x >> 4) + x) & c) & (0x0f0f_0f0f_0f0f_0f0f & c);
    var x := (x + (x >> 8)) & c;
    var x := (x + (x >> 16)) & c;
    var x := if w.W64? then (x + (x >> 32)) & c else x;
    (x & 0x7f) as bv8
  }

  /** A run of c ones from the bottom. */
  function Ones(c: bv8): bv64 {
    if c >= 64 then 0xffff_ffff_ffff_ffff else (1 << c) - 1
  }

  lemma OnesStep(c: bv8)
    requires c < 64
    ensures Append(Ones(c), true) == Ones(c + 1)
  {}

  lemma OnesCounted64(c: bv8)
    requires c <= 64
    ensures CountOnes(W64, Ones(c)) == c
  {}

  lemma OnesCounted32(c: bv8)
    requires c <= 32
    ensures CountOnes(W32, Ones(c)) == c
  {}

  function Number(c: bv8): nat {
    c as nat
  }

  lemma AddOne(c: bv8)
    requires c < 64
    ensures Number(c + 1) == Number(c) + 1
  {}

  lemma WithinWidth(w: Width, c: bv8)
    ensures Number(c) < w.Bits() <==> c < if w.W32? then 32 else 64
    ensures Number(c) <= w.Bits() <==> c <= if w.W32? then 32 else 64
    ensures Number(0) == 0
  {}

  /** The bit pattern of l ones is that of 2^l - 1. */
  lemma {:induction false} OnesPattern(l: nat) returns (c: bv8)
    requires l <= 64
    ensures Number(c) == l && Bits(Pow2(l) - 1) == Ones(c)
  {
    hide Number, Ones;
    WithinWidth(W64, 0);
    if l == 0 {
      c := 0;
      NoOnes();
    } else {
      var b := OnesPattern(l - 1);
      WithinWidth(W64, b);
      c := b + 1;
      AddOne(b);
      OnesStep(b);
      var n := Pow2(l) - 1;
      assert n % 2 == 1 && n / 2 == Pow2(l - 1) - 1;
    }
  }

  lemma NoOnes()
    ensures Ones(0) == 0
  {}

  /** p4LeadZeroBits: every cell, zero included, gets the number of its leading zeros. */
  function LeadZeroBits(w: Width, cell: nat): (zeros: nat)
    requires cell < w.Base()
    ensures zeros == w.Bits() - BitLength(cell)
  {
    CellLength(w, cell);
    w.Bits() - Number(CountOnes(w, Bits(Smear(w, cell))))
  }

  lemma CellLength(w: Width, cell: nat)
    requires cell < w.Base()
    ensures Number(CountOnes(w, Bits(Smear(w, cell)))) == BitLength(cell) <= w.Bits()
  {
    hide Smear, CountOnes, Number, Ones, Pow2, Bits;
    BaseIs(w);
    BitLengthFits(cell, w.Bits());
    SmearTop(w, cell);
    var c := OnesPattern(BitLength(cell));
    WithinWidth(w, c);
    match w {
      case W32 => OnesCounted32(c);
      case W64 => OnesCounted64(c);
    }
  }

  lemma ShiftToTop(n: nat, l: nat, s: nat)
    requires 0 < l && Pow2(l - 1) <= n < Pow2(l)
    ensures n * Pow2(s) < Pow2(l + s) <= 2 * (n * Pow2(s))
  {
    Pow2Add(l, s);
    Pow2Add(l - 1, s);
    assert Pow2(l) == 2 * Pow2(l - 1);
    hide Pow2;
    var p := Pow2(s);
    MulMono(Pow2(l - 1), n, p);
    MulMono(n + 1, Pow2(l), p);
    assert (n + 1) * p == n * p + p;
    assert 2 * (Pow2(l - 1) * p) == 2 * Pow2(l - 1) * p;
  }

  /** Shifting a non-zero cell left by its leading zeros sets the top bit and loses none. */
  lemma Normalizes(w: Width, cell: nat, zeros: nat)
    requires 0 < cell < w.Base() && zeros == w.Bits() - BitLength(cell)
    ensures Shl(w, cell, zeros) == cell * Pow2(zeros) && w.Base() <= 2 * (cell * Pow2(zeros))
  {
    hide Wrap, Pow2, BitLength;
    BaseIs(w);
    BitLengthFits(cell, w.Bits());
    ShiftToTop(cell, BitLength(cell), zeros);
    WrapUnique(w, cell * Pow2(zeros), cell * Pow2(zeros), 0);
  }
}
