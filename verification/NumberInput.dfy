/** p4StrNum: number input in any base, with prefix and sign, into two cells. */
module NumberInput {
  import opened Cell
  import opened Characters
  import opened DoubleCell

  /** p4Base36: the value of a digit, or 127. */
  function Base36(b: Byte): (d: nat)
    ensures d <= 127
  {
    if 48 <= b <= 57 then b - 48
    else if 65 <= b <= 90 then b - 65 + 10
    else if 97 <= b <= 122 then b - 97 + 10
    else 127
  }

  const QUOTE: Byte := 39
  const MINUS: Byte := 45
  const PLUS: Byte := 43
  const POINT: Byte := 46

  /** $ for base 16, # for base 10, % for base 2. */
  function PrefixBase(b: Byte, radix: nat): nat {
    if b == 36 then 16 else if b == 35 then 10 else if b == 37 then 2 else radix
  }

  predicate IsPrefix(b: Byte) {
    b == 36 || b == 35 || b == 37
  }

  // ---- what a numeral means -----------------------------------------------------------

  predicate AllDigits(s: seq<Byte>, base: nat) {
    forall i :: 0 <= i < |s| ==> Base36(s[i]) < base
  }

  /** Positional value, most significant digit first. */
  function Value(s: seq<Byte>, base: nat): nat {
    if s == [] then 0 else Value(s[..|s| - 1], base) * base + Base36(s[|s| - 1])
  }

  datatype Number =
    | NotANumber
    | Character(code: Byte)
    | Integer(n: int, double: bool)

  function Negate(negate: bool, v: int): int {
    if negate then -v else v
  }

  /** The digits after prefix and sign, with an optional final point for a double. */
  function DigitsMean(s: seq<Byte>, base: nat, negate: bool): Number {
    if AllDigits(s, base) then Integer(Negate(negate, Value(s, base)), false)
    else if s[|s| - 1] == POINT && AllDigits(s[..|s| - 1], base) then Integer(Negate(negate, Value(s[..|s| - 1], base)), true)
    else NotANumber
  }

  function AfterPrefix(s: seq<Byte>, base: nat): Number {
    if s == [] then Integer(0, false)
    else if s[0] == MINUS then DigitsMean(s[1..], base, true)
    else if s[0] == PLUS then DigitsMean(s[1..], base, false)
    else DigitsMean(s, base, false)
  }

  /** What the string s means when the current radix is radix. */
  function Meaning(s: seq<Byte>, radix: nat): Number {
    if s == [] then NotANumber
    else if |s| == 3 && s[0] == QUOTE && s[2] == QUOTE then Character(s[1])
    else if |s| == 4 && s[0] == QUOTE && s[1] == BACKSLASH && s[3] == QUOTE then Character(Literal(s[2]))
    else if IsPrefix(s[0]) then AfterPrefix(s[1..], PrefixBase(s[0], radix))
    else AfterPrefix(s, radix)
  }

  // ---- the accumulator ------------------------------------------------------------------

  /** Multiplying two cells by the base and adding a digit, reduced to two cells. */
  lemma Horner(w: Width, lo: nat, hi: nat, base: nat, digit: nat, v: nat, a0: nat, a1: nat, h0: nat, h1: nat)
    requires lo < w.Base() && hi < w.Base() && h0 < w.Base()
    requires Double(w, lo, hi) == Wrap2(w, v)
    requires Double(w, a0, a1) == lo * base && Double(w, h0, h1) == hi * base
    ensures Wrap2(w, Double(w, a0, a1) + Double(w, digit, h0)) == Wrap2(w, v * base + digit)
  {
    hide *;
    var k := Wrap2Of(w, v);
    DoubleHorner(w, lo, hi, base, digit, v, k, a0, a1, h0, h1);
    SameRemainder(w, v * base + digit, Double(w, a0, a1) + Double(w, digit, h0), k * base + h1);
  }

  lemma DoubleHorner(w: Width, lo: int, hi: int, base: int, digit: int, v: int, k: int, a0: int, a1: int, h0: int, h1: int)
    requires v == k * (w.Base() * w.Base()) + Double(w, lo, hi)
    requires Double(w, a0, a1) == lo * base && Double(w, h0, h1) == hi * base
    ensures v * base + digit == (k * base + h1) * (w.Base() * w.Base()) + (Double(w, a0, a1) + Double(w, digit, h0))
  {
    hide Width.Base;
    HornerStep(w.Base(), lo, hi, base, digit, v, k, a0, a1, h0, h1);
  }

  lemma HornerStep(m: int, lo: int, hi: int, base: int, digit: int, v: int, k: int, a0: int, a1: int, h0: int, h1: int)
    requires v == k * (m * m) + (hi * m + lo) && a1 * m + a0 == lo * base && h1 * m + h0 == hi * base
    ensures v * base + digit == (k * base + h1) * (m * m) + ((a1 * m + a0) + (h0 * m + digit))
  {
    Distribute2(k * (m * m), hi * m + lo, base);
    Distribute2(hi * m, lo, base);
    HighTimes(hi, m, base, h0, h1);
    Swap(k, m * m, base);
    Distribute2(k * base, h1, m * m);
  }

  lemma HighTimes(hi: int, m: int, base: int, h0: int, h1: int)
    requires h1 * m + h0 == hi * base
    ensures hi * m * base == h1 * (m * m) + h0 * m
  {
    Swap(hi, m, base);
    Distribute2(h1 * m, h0, m);
    Reassociate(h1, m, m);
  }

  lemma Swap(x: int, y: int, z: int)
    ensures x * y * z == x * z * y
  {}

  lemma SameRemainder(w: Width, x: int, y: int, k: int)
    requires x == k * (w.Base() * w.Base()) + y
    ensures Wrap2(w, x) == Wrap2(w, y)
  {
    var m2 := w.Base() * w.Base();
    MulMono(1, w.Base(), w.Base());
    var q := y / m2;
    assert y == q * m2 + Wrap2(w, y);
    Distribute2(k, q, m2);
    DivModUnique(x, m2, k + q, Wrap2(w, y));
  }

  lemma ValueStep(s: seq<Byte>, i: nat, j: nat, base: nat)
    requires i <= j < |s|
    ensures Value(s[i..j + 1], base) == Value(s[i..j], base) * base + Base36(s[j])
  {
    assert s[i..j + 1][..j - i] == s[i..j];
  }

  /** A build with floating point has the C library's strtod, which says what cell a text starts
      with and how many bytes of it that takes; one without has not. */
  datatype Math = NoMath | Strtod(read: seq<Byte> -> (nat, nat))

  /** The whole of the string is a floating point number. */
  predicate IsFloat(math: Math, str: seq<Byte>, length: nat) {
    math.Strtod? && math.read(str).1 == length
  }

  /** p4StrNum on the first length bytes of str; one byte past them can be read. */
  method StrNum(w: Width, str: seq<Byte>, length: nat, radix: nat, math: Math, out: array<nat>)
    returns (rc: int, isFloat: bool, isDouble: bool)
    requires length < |str| && radix < w.Base() && out.Length == 2
    modifies out
    ensures isFloat <==> Meaning(str[..length], radix).NotANumber? && length > 0 && IsFloat(math, str, length)
    ensures
      match Meaning(str[..length], radix)
      case NotANumber => if isFloat then rc == 0 && !isDouble && out[0] == Wrap(w, math.read(str).0) else rc == -1
      case Character(code) => rc == 0 && !isDouble && out[0] == Wrap(w, code)
      case Integer(n, double) => rc == 0 && isDouble == double && IsPair(w, out) && Pair(w, out) == Wrap2(w, n)
  {
    hide Wrap2, Double, Value, AfterPrefix, Wrap, IsFloat;
    ghost var s := str[..length];
    var offset := 0;
    isFloat, isDouble := false, false;
    if length == 0 {
      return -1, false, false;
    }
    if str[0] == QUOTE {
      if length == 3 && str[2] == QUOTE {
        out[0] := Wrap(w, str[1]);
        return 0, false, false;
      }
      if length == 4 && str[1] == BACKSLASH && str[3] == QUOTE {
        var code := CharLiteral(str[2]);
        out[0] := Wrap(w, code);
        return 0, false, false;
      }
    }
    var base := radix;
    if IsPrefix(str[0]) {
      base := PrefixBase(str[0], radix);
      offset := offset + 1;
    }
    assert s[offset..] == str[offset..length] && s[0..] == s;
    rc, isFloat, isDouble := SignAndDigits(w, str, offset, length, base, math, out);
  }

  /** The sign and the digits after it.  With nothing after the prefix the sign is looked for
      in the byte past the string, and the value is zero either way. */
  method SignAndDigits(w: Width, str: seq<Byte>, start: nat, length: nat, base: nat, math: Math, out: array<nat>)
    returns (rc: int, isFloat: bool, isDouble: bool)
    requires start <= length < |str| && base < w.Base() && out.Length == 2
    modifies out
    ensures isFloat <==> AfterPrefix(str[start..length], base).NotANumber? && IsFloat(math, str, length)
    ensures
      match AfterPrefix(str[start..length], base)
      case NotANumber => if isFloat then rc == 0 && !isDouble && out[0] == Wrap(w, math.read(str).0) else rc == -1
      case Character(code) => false
      case Integer(n, double) => rc == 0 && isDouble == double && IsPair(w, out) && Pair(w, out) == Wrap2(w, n)
  {
    hide Wrap2, Double, Value, AllDigits, Wrap, IsFloat, AfterPrefix;
    var offset := start;
    var negate := false;
    if str[offset] == MINUS {
      negate := true;
      offset := offset + 1;
    } else if str[offset] == PLUS {
      offset := offset + 1;
    }
    rc, isFloat, isDouble := Accumulate(w, str, offset, length, base, math, out);
    NoDigits(w, base);
    ghost var digits := if offset <= length then str[offset..length] else [];
    SignSkipped(str, start, length, base, negate, offset);
    if rc == 0 && !isFloat {
      ApplySign(w, negate, Value(if isDouble then digits[..|digits| - 1] else digits, base), out);
    }
  }

  /** Where the digits begin, and what they mean. */
  lemma SignSkipped(str: seq<Byte>, start: nat, length: nat, base: nat, negate: bool, offset: nat)
    requires start <= length < |str|
    requires negate == (str[start] == MINUS) && offset == if negate || str[start] == PLUS then start + 1 else start
    ensures
      AfterPrefix(str[start..length], base) == if start == length then Integer(0, false) else DigitsMean(str[offset..length], base, negate)
  {
    if start < length {
      assert str[start..length][1..] == str[start + 1..length];
      assert str[start..length][0] == str[start];
    }
  }

  method ApplySign(w: Width, negate: bool, ghost v: int, out: array<nat>)
    requires IsPair(w, out) && Pair(w, out) == Wrap2(w, v)
    modifies out
    ensures IsPair(w, out) && Pair(w, out) == Wrap2(w, Negate(negate, v))
  {
    hide Wrap2, Double;
    if negate {
      NegateWrapped(w, v);
      var a := new nat[2][0, 0];
      Dneg(w, out, a);
      out[0], out[1] := a[0], a[1];
    }
  }

  lemma NegateWrapped(w: Width, v: int)
    ensures Wrap2(w, 0 - Wrap2(w, v)) == Wrap2(w, 0 - v)
  {
    var m2 := w.Base() * w.Base();
    MulMono(1, w.Base(), w.Base());
    var k := v / m2;
    assert v == k * m2 + Wrap2(w, v);
    Negated(k, m2);
    SameRemainder(w, 0 - v, 0 - Wrap2(w, v), 0 - k);
  }

  /** A digit below the base extends a run of digits. */
  lemma GoodDigit(str: seq<Byte>, i: nat, j: nat, base: nat)
    requires i <= j < |str| && AllDigits(str[i..j], base) && Base36(str[j]) < base
    ensures AllDigits(str[i..j + 1], base)
  {
    assert str[i..j + 1] == str[i..j] + [str[j]];
  }

  /** Any other byte ends it, and only a point at the very end is forgiven. */
  lemma BadDigit(str: seq<Byte>, i: nat, j: nat, n: nat, base: nat)
    requires i <= j < n <= |str| && AllDigits(str[i..j], base) && base <= Base36(str[j])
    ensures
      var s := str[i..n];
      && !AllDigits(s, base)
      && if j + 1 == n && str[j] == POINT then s[|s| - 1] == POINT && s[..|s| - 1] == str[i..j]
         else s[|s| - 1] != POINT || !AllDigits(s[..|s| - 1], base)
  {
    var s := str[i..n];
    assert s[j - i] == str[j];
    if j + 1 < n {
      assert s[..|s| - 1][j - i] == str[j];
    }
  }

  method Accumulate(w: Width, str: seq<Byte>, start: nat, length: nat, base: nat, math: Math, out: array<nat>)
    returns (rc: int, isFloat: bool, isDouble: bool)
    requires start <= length + 1 && length < |str| && base < w.Base() && out.Length == 2
    modifies out
    ensures
      var s := if start <= length then str[start..length] else [];
      if AllDigits(s, base) then
        rc == 0 && !isFloat && !isDouble && IsPair(w, out) && Pair(w, out) == Wrap2(w, Value(s, base))
      else if s[|s| - 1] == POINT && AllDigits(s[..|s| - 1], base) then
        rc == 0 && !isFloat && isDouble && IsPair(w, out) && Pair(w, out) == Wrap2(w, Value(s[..|s| - 1], base))
      else if IsFloat(math, str, length) then
        rc == 0 && isFloat && !isDouble && out[0] == Wrap(w, math.read(str).0)
      else rc == -1 && !isFloat
  {
    hide Wrap2, Double, Value, AllDigits, Base36, Wrap;
    isFloat, isDouble := false, false;
    var a, b := new nat[2][0, 0], new nat[2][0, 0];
    out[0], out[1] := 0, 0;
    NoDigits(w, base);
    if start > length {
      return 0, false, false;
    }
    assert str[start..start] == [];
    var offset := start;
    while offset < length
      invariant start <= offset <= length
      invariant AllDigits(str[start..offset], base)
      invariant IsPair(w, out) && Pair(w, out) == Wrap2(w, Value(str[start..offset], base))
      invariant a.Length == 2 && b.Length == 2
    {
      b[0] := Base36(str[offset]);
      if base <= b[0] {
        BadDigit(str, start, offset, length, base);
        if offset + 1 == length && str[offset] == POINT {
          return 0, false, true;
        }
        if math.Strtod? {
          var read := math.read(str);
          out[0] := Wrap(w, read.0);
          if read.1 == length {
            return 0, true, false;
          }
        }
        return -1, false, false;
      }
      ValueStep(str, start, offset, base);
      GoodDigit(str, start, offset, base);
      PushDigit(w, base, Value(str[start..offset], base), a, b, out);
      offset := offset + 1;
    }
    rc := 0;
  }

  /** The accumulator in out, times the base, plus the digit in b[0]. */
  method PushDigit(w: Width, base: nat, ghost v: nat, a: array<nat>, b: array<nat>, out: array<nat>)
    requires base < w.Base() && IsPair(w, out) && a.Length == 2 && b.Length == 2 && b[0] < w.Base()
    requires a != b && a != out && b != out
    requires Pair(w, out) == Wrap2(w, v)
    modifies a, b, out
    ensures IsPair(w, out) && Pair(w, out) == Wrap2(w, v * base + old(b[0]))
  {
    hide Wrap2, Double;
    ghost var lo, hi, digit := out[0], out[1], b[0];
    a[0], a[1] := Mulu(w, out[1], base);
    ghost var h0, h1 := a[0], a[1];
    b[1] := a[0];
    a[0], a[1] := Mulu(w, out[0], base);
    Horner(w, lo, hi, base, digit, v, a[0], a[1], h0, h1);
    Dadd(w, a, b, out);
  }

  lemma NoDigits(w: Width, base: nat)
    ensures AllDigits([], base) && Value([], base) == 0 && Wrap2(w, 0) == 0 && Double(w, 0, 0) == 0
  {
    DivModUnique(0, w.Base() * w.Base(), 0, 0);
  }

  // ---- rendering and reading back ------------------------------------------------------

  function DigitByte(d: nat): Byte
    requires d < 36
  {
    if d < 10 then 48 + d else 65 + d - 10
  }

  /** n in the given base, most significant digit first. */
  function Render(n: nat, base: nat): (s: seq<Byte>)
    requires 2 <= base <= 36
    ensures s != [] && AllDigits(s, base)
    decreases n
  {
    RenderShrinks(n, base);
    if n < base then [DigitByte(n)] else Render(n / base, base) + [DigitByte(n % base)]
  }

  lemma RenderShrinks(n: nat, base: nat)
    requires 2 <= base
    ensures 0 <= n / base && (n >= base ==> n / base < n)
  {
    DivBounds(n, base);
    if n >= base {
      MulMono(2, base, n);
      DivBelow(n, base, n);
    }
  }

  lemma {:induction false} ValueOfRender(n: nat, base: nat)
    requires 2 <= base <= 36
    ensures Value(Render(n, base), base) == n
  {
    RenderShrinks(n, base);
    RenderStep(n, base);
    hide Value, Base36, Render;
    if n < base {
      ValueAppend([], DigitByte(n), base);
      assert [] + [DigitByte(n)] == [DigitByte(n)];
    } else {
      ValueOfRender(n / base, base);
      ValueAppend(Render(n / base, base), DigitByte(n % base), base);
      DivMod(n, base);
    }
  }

  lemma RenderStep(n: nat, base: nat)
    requires 2 <= base <= 36
    ensures 0 <= n / base && n % base < 36
    ensures Render(n, base) == if n < base then [DigitByte(n)] else Render(n / base, base) + [DigitByte(n % base)]
    ensures n < base ==> Base36(DigitByte(n)) == n
    ensures Base36(DigitByte(n % base)) == n % base
    ensures Value([], base) == 0
  {
    RenderShrinks(n, base);
  }

  lemma ValueAppend(s: seq<Byte>, x: Byte, base: nat)
    ensures Value(s + [x], base) == Value(s, base) * base + Base36(x)
  {
    assert (s + [x])[..|s|] == s;
  }

  // ---- every numeral and nothing else -----------------------------------------------------

  /** What stands before the digits: $ for base 16, # for base 10, % for base 2; then a sign. */
  datatype Prefix = NoPrefix | Dollar | Hash | Percent
  datatype Sign = NoSign | Plus | Minus

  function WithPoint(digits: seq<Byte>, point: bool): seq<Byte> {
    if point then digits + Ascii(".") else digits
  }

  function WithSign(sign: Sign, s: seq<Byte>): seq<Byte> {
    match sign case NoSign => s case Plus => Ascii("+") + s case Minus => Ascii("-") + s
  }

  function WithPrefix(prefix: Prefix, s: seq<Byte>): seq<Byte> {
    match prefix
    case NoPrefix => s
    case Dollar => Ascii("$") + s
    case Hash => Ascii("#") + s
    case Percent => Ascii("%") + s
  }

  function Spell(prefix: Prefix, sign: Sign, digits: seq<Byte>, point: bool): seq<Byte> {
    WithPrefix(prefix, WithSign(sign, WithPoint(digits, point)))
  }

  /** The base a numeral is in, by its prefix or else the current radix. */
  ghost predicate InBase(prefix: Prefix, radix: nat, base: nat) {
    match prefix
    case NoPrefix => base == radix
    case Dollar => base == 16
    case Hash => base == 10
    case Percent => base == 2
  }

  /** The digits 0 to 9 and the letters of either case from ten up, and no other character, have a
      value below 127. */
  lemma DigitValues(c: char)
    ensures '0' <= c <= '9' ==> Base36(c as int) == c as int - '0' as int
    ensures 'A' <= c <= 'Z' ==> Base36(c as int) == 10 + (c as int - 'A' as int)
    ensures 'a' <= c <= 'z' ==> Base36(c as int) == 10 + (c as int - 'a' as int)
    ensures Base36(c as int) < 127 ==> '0' <= c <= '9' || 'A' <= c <= 'Z' || 'a' <= c <= 'z'
  {}

  /** Every numeral, of any length, in any base up to 127, with any prefix and sign, means its
      positional value, negated after a minus sign, a double when it ends in a point. */
  lemma NumeralMeans(prefix: Prefix, sign: Sign, digits: seq<Byte>, point: bool, radix: nat, base: nat)
    requires InBase(prefix, radix, base) && base <= 127 && AllDigits(digits, base)
    requires Spell(prefix, sign, digits, point) != []
    ensures
      var v: int := Value(digits, base);
      Meaning(Spell(prefix, sign, digits, point), radix) == Integer(if sign.Minus? then -v else v, point)
  {
    hide DigitsMean, AfterPrefix, Meaning, Value, AllDigits, WithSign, WithPoint;
    var body := WithPoint(digits, point);
    DigitsMeans(digits, base, sign.Minus?, point);
    FirstByte(digits, point, base);
    SignMeans(sign, body, base);
    PrefixMeans(prefix, WithSign(sign, body), radix, base);
  }

  /** And nothing else is an integer: what reads as one is spelled like that. */
  lemma OnlyNumerals(s: seq<Byte>, radix: nat) returns (prefix: Prefix, sign: Sign, digits: seq<Byte>, point: bool, base: nat)
    requires radix <= 127 && Meaning(s, radix).Integer?
    ensures InBase(prefix, radix, base) && base <= 127 && AllDigits(digits, base)
    ensures s != [] && s == Spell(prefix, sign, digits, point)
  {
    hide DigitsMean, AllDigits, Value;
    prefix, base := NoPrefix, radix;
    var t := s;
    if IsPrefix(s[0]) {
      prefix := if s[0] == '$' as int then Dollar else if s[0] == '#' as int then Hash else Percent;
      base := PrefixBase(s[0], radix);
      t := s[1..];
    }
    assert s == WithPrefix(prefix, t);
    assert AfterPrefix(t, base).Integer?;
    sign := NoSign;
    var body := t;
    if t != [] && (t[0] == '-' as int || t[0] == '+' as int) {
      sign := if t[0] == '-' as int then Minus else Plus;
      body := t[1..];
    }
    assert t == WithSign(sign, body);
    digits, point := OnlyDigits(body, base, sign.Minus?);
  }

  /** A character between quotes, or an escape between quotes, means its code. */
  lemma QuotedMeans(c: Byte, radix: nat)
    ensures Meaning(Ascii("'") + [c] + Ascii("'"), radix) == Character(c)
    ensures Meaning(Ascii("'\\") + [c] + Ascii("'"), radix) == Character(Literal(c))
  {
    hide Literal;
  }

  /** And nothing else is a character. */
  lemma OnlyQuoted(s: seq<Byte>, radix: nat)
    requires Meaning(s, radix).Character?
    ensures exists c :: s == Ascii("'") + [c] + Ascii("'") || s == Ascii("'\\") + [c] + Ascii("'")
  {
    hide Literal;
    if |s| == 3 {
      assert s == Ascii("'") + [s[1]] + Ascii("'");
    } else {
      assert s == Ascii("'\\") + [s[2]] + Ascii("'");
    }
  }

  lemma OnlyDigits(body: seq<Byte>, base: nat, negate: bool) returns (digits: seq<Byte>, point: bool)
    requires base <= 127 && (body != [] ==> DigitsMean(body, base, negate).Integer?)
    ensures AllDigits(digits, base) && body == WithPoint(digits, point)
  {
    digits, point := body, false;
    if !AllDigits(body, base) {
      digits, point := body[..|body| - 1], true;
    }
  }

  lemma PrefixMeans(prefix: Prefix, s: seq<Byte>, radix: nat, base: nat)
    requires InBase(prefix, radix, base) && WithPrefix(prefix, s) != []
    requires s != [] ==> s[0] != QUOTE && !IsPrefix(s[0])
    ensures Meaning(WithPrefix(prefix, s), radix) == AfterPrefix(s, base)
  {
    hide AfterPrefix;
    if prefix != NoPrefix {
      assert WithPrefix(prefix, s)[1..] == s;
    }
  }

  lemma DigitsMeans(digits: seq<Byte>, base: nat, negate: bool, point: bool)
    requires base <= 127 && AllDigits(digits, base)
    ensures DigitsMean(WithPoint(digits, point), base, negate) == Integer(if negate then 0 - Value(digits, base) as int else Value(digits, base), point)
  {
    if point {
      assert (digits + Ascii("."))[..|digits|] == digits;
      assert (digits + Ascii("."))[|digits|] == POINT;
    }
  }

  /** A numeral cannot be mistaken for a quoted character, a prefix or a sign. */
  lemma FirstByte(digits: seq<Byte>, point: bool, base: nat)
    requires base <= 127 && AllDigits(digits, base)
    ensures
      var body := WithPoint(digits, point);
      body != [] ==> body[0] != QUOTE && body[0] != MINUS && body[0] != PLUS && !IsPrefix(body[0])
    ensures WithPoint(digits, point) == [] ==> digits == [] && !point
  {}

  lemma SignMeans(sign: Sign, body: seq<Byte>, base: nat)
    requires body != [] ==> body[0] != MINUS && body[0] != PLUS && body[0] != QUOTE && !IsPrefix(body[0])
    ensures AfterPrefix(WithSign(sign, body), base) == DigitsMean(body, base, sign.Minus?)
    ensures var s := WithSign(sign, body); s != [] ==> s[0] != QUOTE && !IsPrefix(s[0])
  {
    EmptyMeans(base, sign.Minus?);
    hide DigitsMean;
    assert (Ascii("-") + body)[1..] == body && (Ascii("+") + body)[1..] == body;
  }

  lemma EmptyMeans(base: nat, negate: bool)
    ensures DigitsMean([], base, negate) == Integer(0, false)
  {}

  /** Reading a number back: any number of up to two cells, rendered in the base its prefix names,
      or in the current radix, is what p4StrNum leaves in its two cells; with a minus sign, its
      two's complement negation. */
  method ReadBack(w: Width, n: nat, prefix: Prefix, radix: nat, base: nat, sign: Sign, math: Math, out: array<nat>)
    returns (rc: int, isDouble: bool)
    requires n < w.Base() * w.Base() && InBase(prefix, radix, base) && 2 <= base <= 36 && radix < w.Base() && out.Length == 2
    modifies out
    ensures rc == 0 && !isDouble && IsPair(w, out)
    ensures Pair(w, out) == if sign.Minus? && n != 0 then w.Base() * w.Base() - n else n
  {
    hide Double, Value, Meaning, Wrap, IsFloat, WithSign, WithPoint, WithPrefix, InBase;
    var s := Spell(prefix, sign, Render(n, base), false);
    SpeltNotEmpty(prefix, sign, Render(n, base));
    NumeralMeans(prefix, sign, Render(n, base), false, radix, base);
    ValueOfRender(n, base);
    assert (s + [0])[..|s|] == s;
    var isFloat;
    rc, isFloat, isDouble := StrNum(w, s + [0], |s|, radix, math, out);
    InRange(w, n);
  }

  lemma SpeltNotEmpty(prefix: Prefix, sign: Sign, digits: seq<Byte>)
    requires digits != []
    ensures Spell(prefix, sign, digits, false) != []
  {}

  lemma InRange(w: Width, n: nat)
    requires n < w.Base() * w.Base()
    ensures Wrap2(w, n) == n && (n != 0 ==> Wrap2(w, 0 - n as int) == w.Base() * w.Base() - n)
  {
    DivModUnique(n, w.Base() * w.Base(), 0, n);
    if n != 0 {
      DivModUnique(0 - n as int, w.Base() * w.Base(), -1, w.Base() * w.Base() - n);
    }
  }
}
