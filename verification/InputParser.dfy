/** p4Parse and p4ParseName: splitting the input buffer at delimiters, removing backslash
    escapes in place. */
module InputParser {
  import opened Characters

  // ---- what parsing means -------------------------------------------------------------

  predicate IsDelimiter(b: Byte, delim: int) {
    b == delim || (delim == SPACE && IsControlByte(b))
  }

  /** The text up to the first unescaped delimiter, with escapes replaced; how many escapes
      there were; and what is left, delimiter first. */
  datatype Parsed = Parsed(text: seq<Byte>, escapes: nat, rest: seq<Byte>)

  function Scan(s: seq<Byte>, delim: int, escape: bool): Parsed
    decreases |s|
  {
    if s == [] then Parsed([], 0, [])
    else if escape && s[0] == BACKSLASH && |s| > 1 then
      var p := Scan(s[2..], delim, escape);
      Parsed([Literal(s[1])] + p.text, p.escapes + 1, p.rest)
    else if IsDelimiter(s[0], delim) then Parsed([], 0, s)
    else
      var p := Scan(s[1..], delim, escape);
      Parsed([s[0]] + p.text, p.escapes, p.rest)
  }

  /** Every byte of the input is text, the backslash of an escape, or left. */
  lemma {:induction false} ScanLengths(s: seq<Byte>, delim: int, escape: bool)
    ensures var p := Scan(s, delim, escape); |p.text| + p.escapes + |p.rest| == |s|
    ensures var p := Scan(s, delim, escape); p.rest == s[|s| - |p.rest|..]
    decreases |s|
  {
    Unfolded(s, delim, escape);
    hide Literal, IsDelimiter, Scan;
    if s == [] {
    } else if escape && s[0] == BACKSLASH && |s| > 1 {
      ScanLengths(s[2..], delim, escape);
      Suffix(s, 2, |Scan(s[2..], delim, escape).rest|);
    } else if !IsDelimiter(s[0], delim) {
      ScanLengths(s[1..], delim, escape);
      Suffix(s, 1, |Scan(s[1..], delim, escape).rest|);
    }
  }

  lemma Unfolded(s: seq<Byte>, delim: int, escape: bool)
    ensures Scan(s, delim, escape) ==
      if s == [] then Parsed([], 0, [])
      else if escape && s[0] == BACKSLASH && |s| > 1 then
        var p := Scan(s[2..], delim, escape);
        Parsed([Literal(s[1])] + p.text, p.escapes + 1, p.rest)
      else if IsDelimiter(s[0], delim) then Parsed([], 0, s)
      else
        var p := Scan(s[1..], delim, escape);
        Parsed([s[0]] + p.text, p.escapes, p.rest)
  {}

  lemma Suffix(s: seq<Byte>, k: nat, n: nat)
    requires k + n <= |s|
    ensures s[k..][|s| - k - n..] == s[|s| - n..]
  {}

  /** Without escapes the text is the input up to the first delimiter. */
  lemma {:induction false} ScanPlain(s: seq<Byte>, delim: int)
    ensures var p := Scan(s, delim, false);
      && p.escapes == 0 && s == p.text + p.rest
      && (forall i :: 0 <= i < |p.text| ==> !IsDelimiter(p.text[i], delim))
      && (p.rest != [] ==> IsDelimiter(p.rest[0], delim))
    decreases |s|
  {
    if s == [] || IsDelimiter(s[0], delim) {
    } else {
      ScanPlain(s[1..], delim);
      assert s == [s[0]] + s[1..];
    }
  }

  const DOUBLE_QUOTE: Byte := 34

  /** Text made safe to stand between double quotes. */
  function Quote(text: seq<Byte>): seq<Byte> {
    if text == [] then []
    else (if text[0] == DOUBLE_QUOTE || text[0] == BACKSLASH then [BACKSLASH, text[0]] else [text[0]]) + Quote(text[1..])
  }

  /** Parsing quoted text up to a closing quote gives back the text. */
  lemma {:induction false} QuoteRoundTrip(text: seq<Byte>, after: seq<Byte>)
    ensures
      var p := Scan(Quote(text) + [DOUBLE_QUOTE] + after, DOUBLE_QUOTE, true);
      p.text == text && p.rest == [DOUBLE_QUOTE] + after
  {
    hide Scan, Literal;
    var s := Quote(text) + [DOUBLE_QUOTE] + after;
    if text == [] {
      assert s == [DOUBLE_QUOTE] + after;
      ScanStep(s, DOUBLE_QUOTE, true, [], 0);
    } else {
      QuoteRoundTrip(text[1..], after);
      var t := Quote(text[1..]) + [DOUBLE_QUOTE] + after;
      ScanQuoted(text[0], t);
      assert s == (if text[0] == DOUBLE_QUOTE || text[0] == BACKSLASH then [BACKSLASH, text[0]] else [text[0]]) + t;
      assert text == [text[0]] + text[1..];
    }
  }

  lemma ScanQuoted(c: Byte, t: seq<Byte>)
    requires t != []
    ensures
      var s := (if c == DOUBLE_QUOTE || c == BACKSLASH then [BACKSLASH, c] else [c]) + t;
      var p := Scan(t, DOUBLE_QUOTE, true);
      Scan(s, DOUBLE_QUOTE, true).text == [c] + p.text && Scan(s, DOUBLE_QUOTE, true).rest == p.rest
  {
    var quoted := c == DOUBLE_QUOTE || c == BACKSLASH;
    var s := (if quoted then [BACKSLASH, c] else [c]) + t;
    assert quoted ==> s[0] == BACKSLASH && s[1] == c && s[2..] == t && Literal(c) == c;
    assert !quoted ==> s[0] == c && s[1..] == t;
  }

  /** A character of a text as it is written, and the byte it stands for. */
  datatype Piece = Plain(c: Byte) | Escaped(c: Byte)

  function Texts(pieces: seq<Piece>): seq<Byte> {
    if pieces == [] then []
    else (match pieces[0] case Plain(c) => [c] case Escaped(c) => Ascii("\\") + [c]) + Texts(pieces[1..])
  }

  function Stand(pieces: seq<Piece>): seq<Byte> {
    if pieces == [] then []
    else [match pieces[0] case Plain(c) => c case Escaped(c) => Literal(c)] + Stand(pieces[1..])
  }

  /** Any text, with any escapes, the delimiter among them, is read up to the first delimiter that
      is not escaped, or to the end of the input; a backslash that ends the input is an ordinary
      character. */
  lemma {:induction false} ScanPieces(pieces: seq<Piece>, delim: int, rest: seq<Byte>)
    requires forall p :: p in pieces && p.Plain? ==> p.c != delim && p.c != '\\' as int && !(delim == 32 && (0 <= p.c < 32 || p.c == 127))
    requires delim != '\\' as int && (rest == [] || rest[0] == delim)
    ensures var p := Scan(Texts(pieces) + rest, delim, true); p.text == Stand(pieces) && p.rest == rest
    ensures Scan(Texts(pieces) + Ascii("\\"), delim, true).text == Stand(pieces) + Ascii("\\")
  {
    hide Literal, Scan;
    var backslash := Ascii("\\");
    if pieces == [] {
      assert Texts(pieces) + rest == rest && Texts(pieces) + backslash == backslash;
      NoPieces(delim, rest);
    } else {
      assert pieces[0] in pieces;
      ScanPieces(pieces[1..], delim, rest);
      OnePiece(pieces, delim, rest);
      OnePiece(pieces, delim, backslash);
    }
  }

  lemma NoPieces(delim: int, rest: seq<Byte>)
    requires delim != '\\' as int && (rest == [] || rest[0] == delim)
    ensures Scan(rest, delim, true) == Parsed([], 0, rest)
    ensures Scan(Ascii("\\"), delim, true).text == Ascii("\\")
  {
    Unfolded(Ascii("\\"), delim, true);
    Unfolded([], delim, true);
    Unfolded(rest, delim, true);
  }

  lemma OnePiece(pieces: seq<Piece>, delim: int, rest: seq<Byte>)
    requires pieces != [] && delim != '\\' as int
    requires pieces[0].Plain? ==> pieces[0].c != '\\' as int && !IsDelimiter(pieces[0].c, delim)
    ensures
      var p, q := Scan(Texts(pieces) + rest, delim, true), Scan(Texts(pieces[1..]) + rest, delim, true);
      p.text == [Stand(pieces)[0]] + q.text && p.rest == q.rest
  {
    hide Literal, Scan, IsDelimiter;
    var after := Texts(pieces[1..]) + rest;
    match pieces[0] {
      case Plain(c) =>
        assert Texts(pieces) + rest == [c] + after;
        PlainFirst(c, after, delim);
      case Escaped(c) =>
        assert Texts(pieces) + rest == Ascii("\\") + [c] + after;
        EscapedFirst(c, after, delim);
    }
  }

  lemma PlainFirst(c: Byte, after: seq<Byte>, delim: int)
    requires c != '\\' as int && !IsDelimiter(c, delim)
    ensures
      var p, q := Scan([c] + after, delim, true), Scan(after, delim, true);
      p.text == [c] + q.text && p.rest == q.rest
  {
    hide Scan, IsDelimiter, Literal;
    var s := [c] + after;
    assert s[1..] == after && s[0] == c;
    Unfolded(s, delim, true);
  }

  lemma EscapedFirst(c: Byte, after: seq<Byte>, delim: int)
    ensures
      var p, q := Scan(Ascii("\\") + [c] + after, delim, true), Scan(after, delim, true);
      p.text == [Literal(c)] + q.text && p.rest == q.rest
  {
    hide Scan, IsDelimiter, Literal;
    var s := Ascii("\\") + [c] + after;
    assert s[2..] == after && s[1] == c && s[0] == '\\' as int;
    Unfolded(s, delim, true);
  }

  /** How many bytes of leading white space. */
  function Spaces(s: seq<Byte>): (n: nat)
    ensures n <= |s| && (n < |s| ==> !IsSpaceByte(s[n]))
    ensures forall i :: 0 <= i < n ==> IsSpaceByte(s[i])
  {
    if s == [] || !IsSpaceByte(s[0]) then 0 else 1 + Spaces(s[1..])
  }

  /** A name and the text after it: white space is skipped, and the delimiter that ends the
      name is used up. */
  datatype Named = Named(name: seq<Byte>, rest: seq<Byte>)

  function Name(s: seq<Byte>): (n: Named)
    ensures |n.rest| <= |s| && (s != [] ==> |n.rest| < |s|)
  {
    var t := s[Spaces(s)..];
    var p := Scan(t, SPACE, false);
    ScanPlain(t, SPACE);
    Named(p.text, if p.rest == [] then [] else p.rest[1..])
  }

  // ---- names as they are written -----------------------------------------------------------

  /** A name as it stands in a text: white space, the name, and the byte that ends it. */
  datatype Written = Written(lead: seq<Byte>, name: seq<Byte>, stop: Byte) {
    function Text(): seq<Byte> {
      lead + (name + [stop])
    }

    /** White space is a space or one of the codes 9 to 13; a name has no space, no control
        character and no delete in it, and one of these ends it. */
    ghost predicate Valid() {
      && (forall i :: 0 <= i < |lead| ==> lead[i] == 32 || 9 <= lead[i] <= 13)
      && name != [] && (forall i :: 0 <= i < |name| ==> (name[i] < 0 || 32 < name[i]) && name[i] != 127)
      && (0 <= stop <= 32 || stop == 127)
    }
  }

  /** A written name is read, and the text after its end is left. */
  lemma NameOf(w: Written, rest: seq<Byte>)
    requires w.Valid()
    ensures Name(w.Text() + rest) == Named(w.name, rest)
  {
    hide Scan, Spaces;
    var t := w.name + [w.stop] + rest;
    assert w.Text() + rest == w.lead + t;
    assert t[0] == w.name[0];
    SpacesOf(w.lead, t);
    assert (w.lead + t)[|w.lead|..] == t;
    ScanName(w.name, w.stop, rest);
    assert ([w.stop] + rest)[1..] == rest;
  }

  lemma {:induction false} SpacesOf(lead: seq<Byte>, t: seq<Byte>)
    requires (forall i :: 0 <= i < |lead| ==> lead[i] == 32 || 9 <= lead[i] <= 13)
    requires t != [] && (t[0] < 0 || 32 < t[0])
    ensures Spaces(lead + t) == |lead|
  {
    if lead == [] {
      assert lead + t == t;
    } else {
      assert (lead + t)[1..] == lead[1..] + t;
      SpacesOf(lead[1..], t);
    }
  }

  lemma {:induction false} ScanName(name: seq<Byte>, stop: Byte, rest: seq<Byte>)
    requires forall i :: 0 <= i < |name| ==> (name[i] < 0 || 32 < name[i]) && name[i] != 127
    requires 0 <= stop <= 32 || stop == 127
    ensures Scan(name + [stop] + rest, SPACE, false) == Parsed(name, 0, [stop] + rest)
  {
    var s := name + [stop] + rest;
    if name == [] {
      assert s == [stop] + rest;
    } else {
      assert s[0] == name[0] && s[1..] == name[1..] + [stop] + rest;
      ScanName(name[1..], stop, rest);
      assert name == [name[0]] + name[1..];
    }
  }

  // ---- the parser ---------------------------------------------------------------------

  class Input {
    const buffer: array<Byte>
    var length: nat
    var offset: nat

    /** The move below touches two bytes past the text. */
    ghost predicate Valid()
      reads this
    {
      offset <= length && length + 2 <= buffer.Length
    }

    constructor (buffer: array<Byte>, length: nat)
      requires length + 2 <= buffer.Length
      ensures Valid() && this.buffer == buffer && this.length == length && offset == 0
    {
      this.buffer, this.length, offset := buffer, length, 0;
    }

    /** p4ResetInput: nothing is left to parse. */
    method Reset()
      requires Valid()
      modifies `length, `offset
      ensures Valid() && length == 0 && offset == 0
    {
      length, offset := 0, 0;
    }

    /** Everything after at, and the byte past the text, moves down one place. */
    method MoveDown(at: nat)
      requires at < length && length + 2 <= buffer.Length
      modifies buffer
      ensures forall k :: at <= k < length + 1 ==> buffer[k] == old(buffer[k + 1])
      ensures forall k :: 0 <= k < at || length + 1 <= k < buffer.Length ==> buffer[k] == old(buffer[k])
    {
      var i := at;
      while i < length + 1
        invariant at <= i <= length + 1
        invariant forall k :: 0 <= k < at ==> buffer[k] == old(buffer[k])
        invariant forall k :: at <= k < i ==> buffer[k] == old(buffer[k + 1])
        invariant forall k :: i <= k < buffer.Length ==> buffer[k] == old(buffer[k])
      {
        buffer[i] := buffer[i + 1];
        i := i + 1;
      }
    }

    /** p4Parse: the parsed text is left in place at the old offset, as its specification
        says; the text before it and the delimiter and text after it are preserved; the
        buffer shrinks by the backslashes removed; and there is always progress. */
    method Parse(delim: int, escape: bool) returns (start: nat, len: nat)
      requires Valid()
      modifies this, buffer
      ensures Valid() && start == old(offset) && start + len <= length
      ensures
        var p := Scan(old(buffer[offset..length]), delim, escape);
        && buffer[start..start + len] == p.text
        && buffer[start + len..length] == p.rest
        && length == old(length) - p.escapes
        && offset == start + len + (if p.rest == [] then 0 else 1)
      ensures forall k :: 0 <= k < start ==> buffer[k] == old(buffer[k])
      ensures old(offset) < old(length) ==> offset > old(offset)
    {
      hide Scan, Literal, IsDelimiter, InScan;
      start := offset;
      ghost var p, before, was := Scan(buffer[offset..length], delim, escape), buffer[..start], length;
      ghost var done: seq<Byte>, removed := [], 0;
      StartScan(delim, escape);
      var at := offset;
      var stop := false;
      while at < length && !stop
        invariant Valid() && offset == start <= at <= length
        invariant InScan(before, p, at, done, removed, was, delim, escape)
        invariant stop ==> at < length && Scan(buffer[at..length], delim, escape) == Parsed([], 0, buffer[at..length])
        decreases length - at, !stop
      {
        stop, done, removed := Advance(at, before, p, done, removed, was, delim, escape);
        if !stop {
          at := at + 1;
        }
      }
      EndScan(before, p, at, done, removed, was, delim, escape);
      len := at - offset;
      offset := at + if at < length then 1 else 0;
    }

    /** How far the parse loop has come: done is the text in place so far, with removed escapes
        gone, and a scan of the rest completes p. */
    ghost predicate InScan(before: seq<Byte>, p: Parsed, at: nat, done: seq<Byte>, removed: nat, was: nat, delim: int, escape: bool)
      reads this, buffer
    {
      && offset <= at <= length <= was && length + 2 <= buffer.Length && length == was - removed
      && |before| == offset && |done| == at - offset && buffer[..at] == before + done
      && (at == offset ==> removed == 0)
      && p == Join(done, removed, Scan(buffer[at..length], delim, escape))
    }

    lemma StartScan(delim: int, escape: bool)
      requires Valid()
      ensures InScan(buffer[..offset], Scan(buffer[offset..length], delim, escape), offset, [], 0, length, delim, escape)
    {
      hide Scan;
      Joined(Scan(buffer[offset..length], delim, escape));
    }

    lemma EndScan(before: seq<Byte>, p: Parsed, at: nat, done: seq<Byte>, removed: nat, was: nat, delim: int, escape: bool)
      requires InScan(before, p, at, done, removed, was, delim, escape)
      requires at < length ==> Scan(buffer[at..length], delim, escape) == Parsed([], 0, buffer[at..length])
      ensures at <= length <= buffer.Length && offset <= at
      ensures buffer[offset..at] == p.text && buffer[at..length] == p.rest && length == was - p.escapes
      ensures forall k :: 0 <= k < offset ==> k < |before| && buffer[k] == before[k]
      ensures at == offset ==> length == was
    {
      hide Scan;
      ScanEnd(buffer[at..length], delim, escape);
      Parts(buffer, offset, at, before, done);
    }

    method Advance(at: nat, ghost before: seq<Byte>, ghost p: Parsed, ghost done: seq<Byte>, ghost removed: nat, ghost was: nat,
                   delim: int, escape: bool)
      returns (stop: bool, ghost done': seq<Byte>, ghost removed': nat)
      requires Valid() && offset <= at < length && InScan(before, p, at, done, removed, was, delim, escape)
      modifies buffer, `length
      ensures length <= old(length) && at < length && length + 2 <= buffer.Length
      ensures InScan(before, p, if stop then at else at + 1, done', removed', was, delim, escape)
      ensures stop ==> length == old(length) && Scan(buffer[at..length], delim, escape) == Parsed([], 0, buffer[at..length])
    {
      hide Scan, Literal, IsDelimiter;
      done', removed' := done, removed;
      ScanStep(buffer[at..length], delim, escape, done, removed);
      stop := Next(at, delim, escape);
      if !stop {
        removed' := removed + (old(length) - length);
        assert buffer[..at + 1] == buffer[..at] + [buffer[at]];
        done' := done + [buffer[at]];
      }
    }

    /** One turn of the parse loop: an escape is removed, a delimiter stops it. */
    method Next(at: nat, delim: int, escape: bool) returns (stop: bool)
      requires at < length && length + 2 <= buffer.Length
      modifies buffer, `length
      ensures buffer[..at] == old(buffer[..at])
      ensures
        var s := old(buffer[at..length]);
        if escape && s[0] == BACKSLASH && |s| > 1 then
          && !stop && length == old(length) - 1 && buffer[at] == Literal(s[1])
          && buffer[at + 1..length] == s[2..]
        else
          && length == old(length) && stop == IsDelimiter(s[0], delim)
          && buffer[at..length] == s && buffer[at] == s[0] && buffer[at + 1..length] == s[1..]
    {
      hide Literal, IsDelimiter;
      ghost var s := buffer[at..length];
      var ch := buffer[at];
      if escape && ch == BACKSLASH && at + 1 < length {
        assert s[1] == buffer[at + 1];
        RemoveEscape(at);
        stop := false;
        assert buffer[at + 1..length] == s[2..];
      } else {
        stop := IsDelimiter(ch, delim);
        assert buffer[at + 1..length] == s[1..];
      }
    }

    /** The backslash goes, and the escaped character becomes what it stands for. */
    method RemoveEscape(at: nat)
      requires at + 1 < length && length + 2 <= buffer.Length
      modifies buffer, `length
      ensures length == old(length) - 1
      ensures buffer[at] == Literal(old(buffer[at + 1]))
      ensures forall k :: 0 <= k < at ==> buffer[k] == old(buffer[k])
      ensures forall k :: at < k < length ==> buffer[k] == old(buffer[k + 1])
    {
      hide Literal;
      MoveDown(at);
      var c := CharLiteral(buffer[at]);
      buffer[at] := c;
      length := length - 1;
    }

    /** p4ParseName: leading white space skipped, then parsed up to a space or any control
        character.  The buffer is not changed, and the name is empty only at the end of the
        input or at a control character that is not white space. */
    method ParseName() returns (start: nat, len: nat)
      requires Valid()
      modifies this, buffer
      ensures Valid() && length == old(length) && start + len <= length
      ensures buffer[..length] == old(buffer[..length])
      ensures start == old(offset) + Spaces(old(buffer[offset..length]))
      ensures forall i :: start <= i < start + len ==> !IsDelimiter(buffer[i], SPACE)
      ensures start + len < length ==> IsDelimiter(buffer[start + len], SPACE) && offset == start + len + 1
      ensures start + len == length ==> offset == length
      ensures len == 0 <==> start == length || IsControlByte(buffer[start])
      ensures Named(buffer[start..start + len], buffer[offset..length]) == Name(old(buffer[offset..length]))
      ensures old(offset) < old(length) ==> offset > old(offset)
    {
      hide Scan, IsDelimiter, Name, Spaces;
      NameParts(buffer[offset..length]);
      SkipSpaces();
      ghost var rest := buffer[offset..length];
      EmptyName(rest);
      start, len := ParseWord();
      NameEnds(buffer, length, rest, start, len, offset);
    }

    /** The text up to the next space or control character, in place. */
    method ParseWord() returns (start: nat, len: nat)
      requires Valid()
      modifies this, buffer
      ensures Valid() && length == old(length) && start == old(offset) && start + len <= length
      ensures buffer[..length] == old(buffer[..length])
      ensures
        var p := Scan(old(buffer[offset..length]), SPACE, false);
        && buffer[start..start + len] == p.text && buffer[start + len..length] == p.rest
        && offset == start + len + (if p.rest == [] then 0 else 1)
      ensures old(offset) < old(length) ==> offset > old(offset)
    {
      hide Scan, IsDelimiter;
      ghost var text, rest := buffer[..length], buffer[offset..length];
      assert rest == text[offset..];
      ScanPlain(rest, SPACE);
      start, len := Parse(SPACE, false);
      assert forall k :: 0 <= k < start ==> buffer[k] == text[k];
      Unsplit(buffer, length, text, Scan(rest, SPACE, false).text, Scan(rest, SPACE, false).rest, start, len);
    }

    method SkipSpaces()
      requires Valid()
      modifies `offset
      ensures Valid() && offset == old(offset) + Spaces(buffer[old(offset)..length])
      ensures offset < length ==> !IsSpaceByte(buffer[offset])
    {
      ghost var s, skipped := buffer[offset..length], 0;
      while offset < length
        invariant offset == old(offset) + skipped <= length
        invariant Spaces(s) == skipped + Spaces(buffer[offset..length])
      {
        assert buffer[offset..length][1..] == buffer[offset + 1..length];
        if !IsSpaceByte(buffer[offset]) {
          break;
        }
        offset := offset + 1;
        skipped := skipped + 1;
      }
    }
  }

  lemma Parts(buffer: array<Byte>, start: nat, at: nat, before: seq<Byte>, done: seq<Byte>)
    requires start <= at <= buffer.Length && |before| == start && buffer[..at] == before + done
    ensures buffer[start..at] == done && forall k :: 0 <= k < start ==> buffer[k] == before[k]
  {
    assert buffer[..at][start..] == done;
    forall k | 0 <= k < start ensures buffer[k] == before[k] {
      assert buffer[..at][k] == before[k];
    }
  }

  lemma NameParts(s: seq<Byte>)
    ensures
      var p := Scan(s[Spaces(s)..], SPACE, false);
      Name(s) == Named(p.text, if p.rest == [] then [] else p.rest[1..])
  {}

  lemma AfterDelimiter(buffer: array<Byte>, length: nat, rest: seq<Byte>, stop: nat, offset: nat)
    requires stop <= length <= buffer.Length && buffer[stop..length] == rest
    requires offset == stop + if rest == [] then 0 else 1
    ensures offset <= length && buffer[offset..length] == if rest == [] then [] else rest[1..]
  {
    assert rest != [] ==> buffer[stop..length][1..] == buffer[stop + 1..length];
  }

  /** A buffer whose text and rest are the input's own pieces is as it was. */
  lemma Unsplit(buffer: array<Byte>, length: nat, was: seq<Byte>, text: seq<Byte>, rest: seq<Byte>, start: nat, len: nat)
    requires start + len <= length <= buffer.Length && start <= |was| && was[start..] == text + rest
    requires forall k :: 0 <= k < start ==> buffer[k] == was[k]
    requires buffer[start..start + len] == text && buffer[start + len..length] == rest
    ensures buffer[..length] == was
  {
    var c := buffer[..length];
    assert |was| == length;
    assert c[..start] == was[..start];
    assert c[start..start + len] == text && c[start + len..] == rest;
    ThreePieces(c, was, start, text, rest);
  }

  lemma ThreePieces(c: seq<Byte>, was: seq<Byte>, start: nat, text: seq<Byte>, rest: seq<Byte>)
    requires start + |text| <= |c| == |was| && was[start..] == text + rest
    requires c[..start] == was[..start] && c[start..start + |text|] == text && c[start + |text|..] == rest
    ensures c == was
  {
    var end := c[start..];
    assert end[..|text|] == text && end[|text|..] == rest;
    Rejoined(end, |text|);
    Rejoined(c, start);
    Rejoined(was, start);
  }

  lemma Rejoined(s: seq<Byte>, i: nat)
    requires i <= |s|
    ensures s == s[..i] + s[i..]
  {}

  /** What a name found in place says about the buffer. */
  lemma NameEnds(buffer: array<Byte>, length: nat, was: seq<Byte>, start: nat, len: nat, offset: nat)
    requires start + len <= length <= buffer.Length && buffer[start..length] == was
    requires
      var p := Scan(was, SPACE, false);
      && buffer[start..start + len] == p.text && buffer[start + len..length] == p.rest
      && offset == start + len + if p.rest == [] then 0 else 1
    ensures forall i :: start <= i < start + len ==> !IsDelimiter(buffer[i], SPACE)
    ensures start + len < length ==> IsDelimiter(buffer[start + len], SPACE) && offset == start + len + 1
    ensures start + len == length ==> offset == length
    ensures len == 0 <==> Scan(was, SPACE, false).text == []
    ensures offset <= length
    ensures var p := Scan(was, SPACE, false); buffer[offset..length] == if p.rest == [] then [] else p.rest[1..]
  {
    hide Scan, IsDelimiter;
    var p := Scan(was, SPACE, false);
    ScanPlain(was, SPACE);
    AfterDelimiter(buffer, length, p.rest, start + len, offset);
    forall i | start <= i < start + len ensures !IsDelimiter(buffer[i], SPACE) {
      assert p.text[i - start] == buffer[i];
    }
    assert p.rest != [] ==> p.rest[0] == buffer[start + len];
  }

  lemma EmptyName(s: seq<Byte>)
    requires s != [] ==> !IsSpaceByte(s[0])
    ensures Scan(s, SPACE, false).text == [] <==> s == [] || IsControlByte(s[0])
  {}

  /** What has been scanned so far, and what a scan of the rest adds to it. */
  function Join(done: seq<Byte>, removed: nat, p: Parsed): Parsed {
    Parsed(done + p.text, removed + p.escapes, p.rest)
  }

  lemma Joined(p: Parsed)
    ensures Join([], 0, p) == p
  {}

  lemma ScanStep(s: seq<Byte>, delim: int, escape: bool, done: seq<Byte>, removed: nat)
    requires s != []
    ensures
      var p := Scan(s, delim, escape);
      if escape && s[0] == BACKSLASH && |s| > 1 then
        Join(done, removed, p) == Join(done + [Literal(s[1])], removed + 1, Scan(s[2..], delim, escape))
      else if IsDelimiter(s[0], delim) then p == Parsed([], 0, s)
      else Join(done, removed, p) == Join(done + [s[0]], removed, Scan(s[1..], delim, escape))
  {
    hide Literal, IsDelimiter;
    var p := Scan(s, delim, escape);
    if escape && s[0] == BACKSLASH && |s| > 1 {
      assert done + p.text == done + [Literal(s[1])] + Scan(s[2..], delim, escape).text;
    } else if !IsDelimiter(s[0], delim) {
      assert done + p.text == done + [s[0]] + Scan(s[1..], delim, escape).text;
    }
  }

  lemma ScanEnd(s: seq<Byte>, delim: int, escape: bool)
    ensures s == [] ==> Scan(s, delim, escape) == Parsed([], 0, [])
  {}
}
