/** Bytes, the C character classes the interpreter uses, and backslash escapes. */
module Characters {

  /** A char as the C code sees it, sign-extended where the platform's char is signed. */
  type Byte = int

  /** The escape map: each escaped character and the value it stands for. */
  const ESCAPE_MAP: seq<(Byte, Byte)> := [
    (115, 32), (97, 7), (98, 8), (101, 27), (102, 12), (110, 10), (114, 13),
    (116, 9), (118, 11), (63, 127), (34, 34), (92, 92), (122, 0)]

  /** The bytes of an ASCII text. */
  function Ascii(text: string): (s: seq<Byte>)
    ensures |s| == |text| && forall i :: 0 <= i < |text| ==> s[i] == text[i] as int
  {
    seq(|text|, i requires 0 <= i < |text| => text[i] as int)
  }

  const BACKSLASH: Byte := 92
  const SPACE: Byte := 32

  predicate IsControlByte(b: Byte) {
    0 <= b < 32 || b == 127
  }

  predicate IsSpaceByte(b: Byte) {
    b == 32 || 9 <= b <= 13
  }

  function Literal(ch: Byte): Byte {
    LiteralFrom(ch, 0)
  }

  function LiteralFrom(ch: Byte, i: nat): Byte
    decreases |ESCAPE_MAP| - i
  {
    if i >= |ESCAPE_MAP| then ch
    else if ch == ESCAPE_MAP[i].0 then ESCAPE_MAP[i].1
    else LiteralFrom(ch, i + 1)
  }

  /** No letter is in the map twice. */
  lemma LettersDiffer()
    ensures forall i, j :: 0 <= i < j < |ESCAPE_MAP| ==> ESCAPE_MAP[i].0 != ESCAPE_MAP[j].0
  {}

  /** The search finds a letter wherever it is in the map. */
  lemma {:induction false} LiteralIs(ch: Byte, i: nat)
    ensures forall j :: i <= j < |ESCAPE_MAP| && ch == ESCAPE_MAP[j].0 ==> LiteralFrom(ch, i) == ESCAPE_MAP[j].1
    ensures (forall j :: i <= j < |ESCAPE_MAP| ==> ch != ESCAPE_MAP[j].0) ==> LiteralFrom(ch, i) == ch
    decreases |ESCAPE_MAP| - i
  {
    LettersDiffer();
    if i >= |ESCAPE_MAP| {
    } else {
      LiteralIs(ch, i + 1);
    }
  }

  /** p4CharLiteral: an escape letter gives the value beside it in the map, and anything else
      itself. */
  method CharLiteral(ch: Byte) returns (r: Byte)
    ensures forall i :: 0 <= i < |ESCAPE_MAP| && ch == ESCAPE_MAP[i].0 ==> r == ESCAPE_MAP[i].1
    ensures (forall i :: 0 <= i < |ESCAPE_MAP| ==> ch != ESCAPE_MAP[i].0) ==> r == ch
    ensures r == Literal(ch)
  {
    LiteralIs(ch, 0);
    var i := 0;
    while i < |ESCAPE_MAP|
      invariant i <= |ESCAPE_MAP| && LiteralFrom(ch, i) == Literal(ch)
    {
      if ch == ESCAPE_MAP[i].0 {
        return ESCAPE_MAP[i].1;
      }
      i := i + 1;
    }
    r := ch;
  }

  /** What a backslash and this character stand for. */
  function Escape(c: char): Byte {
    Literal(c as int)
  }

  /** The letters and what they stand for, by their ASCII codes; every other character, capitals
      included, stands for itself. */
  lemma EscapeValues()
    ensures Escape('a') == 7 && Escape('b') == 8 && Escape('t') == 9 && Escape('n') == 10
    ensures Escape('v') == 11 && Escape('f') == 12 && Escape('r') == 13 && Escape('e') == 27
    ensures Escape('s') == 32 && Escape('?') == 127 && Escape('z') == 0
    ensures Escape('"') == '"' as int && Escape('\\') == '\\' as int
    ensures forall ch: Byte :: ch !in Ascii("abtnvfres?z") ==> Literal(ch) == ch
  {
    LettersMean();
    hide Literal, Escape;
    forall ch: Byte | ch !in Ascii("abtnvfres?z") ensures Literal(ch) == ch {
      NotEscaped(ch);
      NotInMap(ch);
    }
  }

  lemma LettersMean()
    ensures Escape('a') == 7 && Escape('b') == 8 && Escape('t') == 9 && Escape('n') == 10
    ensures Escape('v') == 11 && Escape('f') == 12 && Escape('r') == 13 && Escape('e') == 27
    ensures Escape('s') == 32 && Escape('?') == 127 && Escape('z') == 0
    ensures Escape('"') == '"' as int && Escape('\\') == '\\' as int
  {}

  lemma NotInMap(ch: Byte)
    requires forall j :: 0 <= j < |ESCAPE_MAP| && ch == ESCAPE_MAP[j].0 ==> ESCAPE_MAP[j].1 == ch
    ensures Literal(ch) == ch
  {
    LiteralIs(ch, 0);
    hide LiteralFrom;
    if j :| 0 <= j < |ESCAPE_MAP| && ch == ESCAPE_MAP[j].0 {
      assert LiteralFrom(ch, 0) == ESCAPE_MAP[j].1;
    }
  }

  lemma NotEscaped(ch: Byte)
    requires ch !in Ascii("abtnvfres?z")
    ensures forall j :: 0 <= j < |ESCAPE_MAP| && ch == ESCAPE_MAP[j].0 ==> ESCAPE_MAP[j].1 == ch
  {
    var t := "abtnvfres?z";
    assert forall i :: 0 <= i < |t| ==> Ascii(t)[i] == t[i] as int && t[i] as int in Ascii(t);
    assert t[0] == 'a' && t[1] == 'b' && t[2] == 't' && t[3] == 'n' && t[4] == 'v' && t[5] == 'f' && t[6] == 'r';
    assert t[7] == 'e' && t[8] == 's' && t[9] == '?' && t[10] == 'z';
  }
}
