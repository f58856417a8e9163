/** The data space of Post4 and the word list built in it: p4Allot, p4WordCreate,
    p4WordAppend, and the discarding of an unfinished word after a throw. */
module Dictionary {
  import opened Characters
  import opened Options

  const CELL := 8

  /** P4_CELL_ALIGN and P4_ALIGN_BY. */
  function Align(n: int): (a: int)
    ensures n <= a < n + CELL && a % CELL == 0
  {
    n + (-n) % CELL
  }

  /** What a word does when executed. */
  datatype Code = Enter | Lit | Exit | Primitive(id: nat)

  /** A header; data is the address of the word's data and ndata how many bytes it has, kept
      as a plain integer. */
  datatype Word = Word(name: seq<Byte>, code: Code, hidden: bool, data: int, ndata: int)

  /** The word list, oldest first, so that each word's prev is the one before it; and the next
      unused and the last address of the data space. */
  datatype Space = Space(words: seq<Word>, here: int, end: int) {
    function Active(): Word
      requires words != []
    {
      words[|words| - 1]
    }
  }

  // ---- the operations on values ------------------------------------------------------

  /** p4Allot: reserves n bytes, or releases -n of them; None where the C code returns NULL. */
  function Allotted(s: Space, n: int): Option<Space> {
    if s.end <= s.here + n then None
    else if s.words == [] then Some(s.(here := s.here + n))
    else if s.here + n < s.Active().data then None
    else
      var w := s.Active();
      Some(Space(s.words[|s.words| - 1 := w.(ndata := w.ndata + n)], s.here + n, s.end))
  }

  /** p4WordCreate. */
  function Created(s: Space, name: seq<Byte>, code: Code): Space {
    var a := Align(s.here);
    Space(s.words + [Word(name, code, false, a, 0)], a, s.end)
  }

  /** The padding of p4WordAppend, whose result is not looked at. */
  function Padded(s: Space): Space {
    var aligned := Allotted(s, Align(s.here) - s.here);
    if aligned.Some? then aligned.value else s
  }

  /** p4WordAppend: padding, then one cell; None where there is no room for it and the C code
      stores through NULL, which the signal handler turns into a throw. */
  function Appended(s: Space): Option<Space> {
    Allotted(Padded(s), CELL)
  }

  function SetHidden(s: Space, hidden: bool): Space
    requires s.words != []
  {
    s.(words := s.words[|s.words| - 1 := s.Active().(hidden := hidden)])
  }

  /** After a throw: an unfinished word is taken off the list and here rewound to its data. */
  function Discarded(s: Space): Space {
    if s.words == [] || !s.Active().hidden then s
    else Space(s.words[..|s.words| - 1], s.Active().data, s.end)
  }

  // ---- what every operation keeps ------------------------------------------------------

  /** The first k words are built in: their data is NULL, and a constant keeps its value in
      ndata.  The data areas of all others are cell aligned, in order and apart; the newest ends
      at or before here, and here is inside the space. */
  ghost predicate InOrder(s: Space, k: nat) {
    && s.end % CELL == 0 && s.here <= s.end && k <= |s.words| && (k > 0 ==> !s.words[k - 1].hidden)
    && (forall i :: 0 <= i < |s.words| ==> s.words[i].data % CELL == 0)
    && (forall i, j :: 0 <= i < j < |s.words| ==> s.words[i].data <= s.words[j].data)
    && (forall i, j :: k <= i < j < |s.words| ==> s.words[i].data + s.words[i].ndata <= s.words[j].data)
    && (s.words != [] ==> s.Active().data <= s.here)
    && (|s.words| > k ==> s.Active().data + s.Active().ndata <= s.here)
  }

  /** Whatever values the built-in constants have. */
  lemma BuiltinsInOrder(words: seq<Word>, here: nat, end: int)
    requires here <= end && end % CELL == 0
    requires (forall w :: w in words ==> w.data == 0) && (words != [] ==> !words[|words| - 1].hidden)
    ensures InOrder(Space(words, here, end), |words|)
  {}

  lemma AllottedKeeps(s: Space, k: nat, n: int)
    requires InOrder(s, k)
    ensures Allotted(s, n).Some? ==> InOrder(Allotted(s, n).value, k) && Allotted(s, n).value.here == s.here + n
  {}

  lemma CreatedKeeps(s: Space, k: nat, name: seq<Byte>, code: Code)
    requires InOrder(s, k)
    ensures InOrder(Created(s, name, code), k) && |Created(s, name, code).words| > k
  {
    AlignWithin(s.here, s.end);
    hide Align;
    WordAdded(s, k, Word(name, code, false, Align(s.here), 0));
  }

  lemma AlignWithin(n: int, end: int)
    requires n <= end && end % CELL == 0
    ensures Align(n) <= end
  {}

  /** A new word of no bytes at a later aligned address. */
  lemma WordAdded(s: Space, k: nat, w: Word)
    requires InOrder(s, k) && s.here <= w.data <= s.end && w.data % CELL == 0 && w.ndata == 0
    ensures InOrder(Space(s.words + [w], w.data, s.end), k)
  {
    DataBelow(s, k);
    var t := s.words + [w];
    assert forall i :: 0 <= i < |s.words| ==> t[i] == s.words[i];
    assert t[|s.words|] == w;
  }

  /** Every word's data lies at or below here, and ends there unless the word is built in. */
  lemma DataBelow(s: Space, k: nat)
    requires InOrder(s, k)
    ensures forall i :: 0 <= i < |s.words| ==> s.words[i].data <= s.here
    ensures forall i :: k <= i < |s.words| ==> s.words[i].data + s.words[i].ndata <= s.here
  {
    var last := |s.words| - 1;
    forall i | 0 <= i < |s.words| ensures s.words[i].data <= s.here && (k <= i ==> s.words[i].data + s.words[i].ndata <= s.here) {
      if i < last {
        assert s.words[i].data <= s.words[last].data;
      }
    }
  }

  lemma HiddenKeeps(s: Space, k: nat, hidden: bool)
    requires InOrder(s, k) && s.words != [] && (hidden ==> |s.words| > k)
    ensures InOrder(SetHidden(s, hidden), k)
  {}

  /** If aligning is refused so is the cell: nothing is ever stored at an unaligned address. */
  lemma AligningIsNotRefused(s: Space, k: nat)
    requires InOrder(s, k)
    ensures Allotted(s, Align(s.here) - s.here).None? ==> Appended(s).None?
  {}

  lemma AppendedKeeps(s: Space, k: nat)
    requires InOrder(s, k)
    ensures Appended(s).Some? ==> InOrder(Appended(s).value, k) && Appended(s).value.here == Align(s.here) + CELL
  {
    hide InOrder, Allotted, Align;
    AllottedKeeps(s, k, Align(s.here) - s.here);
    AligningIsNotRefused(s, k);
    AllottedKeeps(Padded(s), k, CELL);
  }

  lemma PaddedKeeps(s: Space, k: nat)
    requires InOrder(s, k)
    ensures InOrder(Padded(s), k)
  {
    hide InOrder, Allotted, Align;
    AllottedKeeps(s, k, Align(s.here) - s.here);
  }

  lemma DiscardedKeeps(s: Space, k: nat)
    requires InOrder(s, k)
    ensures InOrder(Discarded(s), k)
  {}

  /** What becomes of a throw: it is reported, which discards a word under construction; or it is
      caught, or it is ABORT, QUIT or an interrupt, which leave the list alone. */
  datatype Throw = Reported | Passed

  /** Operations of a program on the word list.  A colon definition is created hidden; operations
      that may be refused say what then becomes of the throw. */
  datatype Operation =
    | Create(name: seq<Byte>)
    | Colon(name: seq<Byte>)
    | Reveal
    | Append(x: int, throw: Throw)
    | Allot(n: int, throw: Throw)
    | Raise(throw: Throw)

  function AfterThrow(s: Space, throw: Throw): Space {
    match throw
    case Reported => Discarded(s)
    case Passed => s
  }

  function Step(s: Space, op: Operation): Space {
    match op
    case Create(name) => Created(s, name, Enter)
    case Colon(name) => SetHidden(Created(s, name, Enter), true)
    case Reveal => if s.words == [] then s else SetHidden(s, false)
    case Append(_, throw) => if Appended(s).Some? then Appended(s).value else AfterThrow(Padded(s), throw)
    case Allot(n, throw) => if Allotted(s, n).Some? then Allotted(s, n).value else AfterThrow(s, throw)
    case Raise(throw) => AfterThrow(s, throw)
  }

  function Run(s: Space, ops: seq<Operation>): Space
    decreases |ops|
  {
    if ops == [] then s else Run(Step(s, ops[0]), ops[1..])
  }

  lemma StepKeepsOrder(s: Space, k: nat, op: Operation)
    requires InOrder(s, k)
    ensures InOrder(Step(s, op), k)
  {
    hide InOrder, Allotted, Appended, Padded, Created, Discarded, SetHidden;
    match op {
      case Create(name) => CreatedKeeps(s, k, name, Enter);
      case Colon(name) =>
        CreatedKeeps(s, k, name, Enter);
        HiddenKeeps(Created(s, name, Enter), k, true);
      case Reveal =>
        if s.words != [] {
          HiddenKeeps(s, k, false);
        }
      case Append(_, throw) => AppendedKeeps(s, k); PaddedKeeps(s, k); DiscardedKeeps(Padded(s), k);
      case Allot(n, throw) => AllottedKeeps(s, k, n); DiscardedKeeps(s, k);
      case Raise(throw) => DiscardedKeeps(s, k);
    }
  }

  /** Every run of operations keeps the data areas in order. */
  lemma {:induction false} RunKeepsOrder(s: Space, k: nat, ops: seq<Operation>)
    requires InOrder(s, k)
    ensures InOrder(Run(s, ops), k)
    decreases |ops|
  {
    hide InOrder, Step;
    if ops == [] {
    } else {
      StepKeepsOrder(s, k, ops[0]);
      RunKeepsOrder(Step(s, ops[0]), k, ops[1..]);
    }
  }

  /** Reserving and then releasing the same bytes leaves no trace. */
  lemma ReserveThenRelease(s: Space, k: nat, n: nat)
    requires InOrder(s, k) && Allotted(s, n).Some? && s.here < s.end
    ensures Allotted(Allotted(s, n).value, 0 - n) == Some(s)
  {
    if s.words != [] {
      var last, w := |s.words| - 1, s.Active();
      assert s.words[last := w.(ndata := w.ndata + n)][last := w] == s.words;
    }
  }

  // ---- a release that goes too far ---------------------------------------------------

  /** Releasing is bounded by the newest word's data alone, so it can take more bytes than the
      word has; some release does, if and only if there is padding between the word's end and
      here. */
  lemma ReleaseGoesNegative(s: Space, k: nat)
    requires InOrder(s, k) && s.words != [] && s.Active().ndata >= 0
    ensures (exists n :: Allotted(s, n).Some? && Allotted(s, n).value.Active().ndata < 0)
       <==> s.Active().data + s.Active().ndata < s.here
  {
    var w := s.Active();
    if w.data + w.ndata < s.here {
      var n := w.data - s.here;
      assert Allotted(s, n).Some? && Allotted(s, n).value.Active().ndata < 0;
    }
  }

  /** No length of a word that is not built in is negative, and the newest such word reaches up
      to here. */
  ghost predicate Tight(s: Space, k: nat) {
    && k <= |s.words| && (k > 0 ==> !s.words[k - 1].hidden)
    && (forall i :: k <= i < |s.words| ==> s.words[i].ndata >= 0)
    && (|s.words| > k ==> s.Active().data + s.Active().ndata == s.here)
  }

  /** The operation discards a word under construction. */
  predicate Discards(s: Space, op: Operation) {
    && s.words != [] && s.Active().hidden
    && match op
       case Raise(throw) => throw == Reported
       case Append(_, throw) => Appended(s).None? && throw == Reported
       case Allot(n, throw) => Allotted(s, n).None? && throw == Reported
       case _ => false
  }

  predicate NoneDiscards(s: Space, ops: seq<Operation>)
    decreases |ops|
  {
    ops == [] || (!Discards(s, ops[0]) && NoneDiscards(Step(s, ops[0]), ops[1..]))
  }

  lemma AllottedTight(s: Space, k: nat, n: int)
    requires Tight(s, k) && Allotted(s, n).Some?
    ensures Tight(Allotted(s, n).value, k)
  {
    if s.words != [] {
      assert forall i :: 0 <= i < |s.words| - 1 ==> Allotted(s, n).value.words[i] == s.words[i];
    }
  }

  lemma PaddedTight(s: Space, k: nat)
    requires Tight(s, k)
    ensures Tight(Padded(s), k)
  {
    hide Allotted, Align, Tight;
    if Allotted(s, Align(s.here) - s.here).Some? {
      AllottedTight(s, k, Align(s.here) - s.here);
    }
  }

  lemma PaddedHidden(s: Space)
    ensures |Padded(s).words| == |s.words| && (s.words != [] ==> Padded(s).Active().hidden == s.Active().hidden)
  {}

  lemma StepTight(s: Space, k: nat, op: Operation)
    requires Tight(s, k) && !Discards(s, op)
    ensures Tight(Step(s, op), k)
  {
    match op {
      case Append(_, _) =>
        hide Allotted, Align, Tight;
        PaddedTight(s, k);
        PaddedHidden(s);
        if Appended(s).Some? {
          AllottedTight(Padded(s), k, CELL);
        }
      case Allot(n, _) =>
        if Allotted(s, n).Some? {
          AllottedTight(s, k, n);
        }
      case _ =>
    }
  }

  /** As long as no word under construction is discarded, no length is ever negative. */
  lemma {:induction false} NoDiscardNoNegative(s: Space, k: nat, ops: seq<Operation>)
    requires Tight(s, k) && NoneDiscards(s, ops)
    ensures Tight(Run(s, ops), k)
    decreases |ops|
  {
    hide Step, Tight, Discards;
    if ops == [] {
    } else {
      StepTight(s, k, ops[0]);
      NoDiscardNoNegative(Step(s, ops[0]), k, ops[1..]);
    }
  }

  /** A run that does it: one byte reserved by a word, an unfinished word after it discarded,
      and the eight bytes up to here released.  The C code keeps ndata in a size_t, where this
      length wraps to 2^64 - 7. */
  lemma NegativeCountReached()
    ensures
      var s := Run(Space([], 0, 1024), [Create([97]), Allot(1, Reported), Colon([98]), Raise(Reported), Allot(-8, Reported)]);
      InOrder(s, 0) && |s.words| == 1 && s.Active().ndata == -7
  {
    hide InOrder, Step, Run;
    NegativeCountSteps();
    var s0, s1, s2 := Space([], 0, 1024), Space([Word([97], Enter, false, 0, 0)], 0, 1024), Space([Word([97], Enter, false, 0, 1)], 1, 1024);
    var s3 := Space([Word([97], Enter, false, 0, 1), Word([98], Enter, true, 8, 0)], 8, 1024);
    var s4 := Space([Word([97], Enter, false, 0, 1)], 8, 1024);
    var ops := [Create([97]), Allot(1, Reported), Colon([98]), Raise(Reported), Allot(-8, Reported)];
    RunFirst(s0, ops);
    assert ops[1..] == [Allot(1, Reported), Colon([98]), Raise(Reported), Allot(-8, Reported)];
    RunFirst(s1, ops[1..]);
    assert ops[1..][1..] == [Colon([98]), Raise(Reported), Allot(-8, Reported)];
    RunFirst(s2, [Colon([98]), Raise(Reported), Allot(-8, Reported)]);
    assert [Colon([98]), Raise(Reported), Allot(-8, Reported)][1..] == [Raise(Reported), Allot(-8, Reported)];
    RunFirst(s3, [Raise(Reported), Allot(-8, Reported)]);
    assert [Raise(Reported), Allot(-8, Reported)][1..] == [Allot(-8, Reported)];
    RunFirst(s4, [Allot(-8, Reported)]);
    assert [Allot(-8, Reported)][1..] == [];
    RunNothing(Space([Word([97], Enter, false, 0, -7)], 0, 1024));
    BuiltinsInOrder([], 0, 1024);
    RunKeepsOrder(s0, 0, ops);
  }

  lemma NegativeCountSteps()
    ensures Step(Space([], 0, 1024), Create([97])) == Space([Word([97], Enter, false, 0, 0)], 0, 1024)
    ensures Step(Space([Word([97], Enter, false, 0, 0)], 0, 1024), Allot(1, Reported)) == Space([Word([97], Enter, false, 0, 1)], 1, 1024)
    ensures Step(Space([Word([97], Enter, false, 0, 1)], 1, 1024), Colon([98]))
         == Space([Word([97], Enter, false, 0, 1), Word([98], Enter, true, 8, 0)], 8, 1024)
    ensures Step(Space([Word([97], Enter, false, 0, 1), Word([98], Enter, true, 8, 0)], 8, 1024), Raise(Reported))
         == Space([Word([97], Enter, false, 0, 1)], 8, 1024)
    ensures Step(Space([Word([97], Enter, false, 0, 1)], 8, 1024), Allot(-8, Reported))
         == Space([Word([97], Enter, false, 0, -7)], 0, 1024)
  {
    assert Align(0) == 0 && Align(1) == 8;
    var a := Word([97], Enter, false, 0, 1);
    assert [a, Word([98], Enter, true, 8, 0)][..1] == [a];
  }

  lemma RunNothing(s: Space)
    ensures Run(s, []) == s
  {}

  lemma RunFirst(s: Space, ops: seq<Operation>)
    requires ops != []
    ensures Run(s, ops) == Run(Step(s, ops[0]), ops[1..])
  {}

  // ---- finding a name -----------------------------------------------------------------

  function Upper(b: Byte): Byte {
    if 97 <= b <= 122 then b - 32 else b
  }

  /** strncasecmp over the whole of two names of equal length. */
  predicate SameName(a: seq<Byte>, b: seq<Byte>) {
    |a| == |b| && forall i :: 0 <= i < |a| ==> Upper(a[i]) == Upper(b[i])
  }

  predicate Matches(w: Word, name: seq<Byte>) {
    !w.hidden && w.name != [] && SameName(w.name, name)
  }

  /** The newest visible word of that name. */
  function Newest(words: seq<Word>, name: seq<Byte>): Option<nat> {
    if words == [] then None
    else if Matches(words[|words| - 1], name) then Some(|words| - 1)
    else Newest(words[..|words| - 1], name)
  }

  lemma {:induction false} NewestIs(words: seq<Word>, name: seq<Byte>)
    ensures
      match Newest(words, name)
      case None => forall i :: 0 <= i < |words| ==> !Matches(words[i], name)
      case Some(k) => k < |words| && Matches(words[k], name) && forall i :: k < i < |words| ==> !Matches(words[i], name)
  {
    if words == [] || Matches(words[|words| - 1], name) {
    } else {
      NewestIs(words[..|words| - 1], name);
    }
  }

  /** The same text, but for the case of letters. */
  ghost predicate SameButCase(a: seq<Byte>, b: seq<Byte>) {
    |a| == |b| && forall i :: 0 <= i < |a| ==>
      a[i] == b[i] || ('A' as int <= a[i] <= 'Z' as int && b[i] == a[i] + 32) || ('A' as int <= b[i] <= 'Z' as int && a[i] == b[i] + 32)
  }

  /** A lookup finds the newest word that is not hidden, is not nameless and has the name in
      whatever case; so case makes no difference to it. */
  lemma LookupIgnoresCase(words: seq<Word>, name: seq<Byte>, other: seq<Byte>)
    ensures
      match Newest(words, name)
      case None => forall i :: 0 <= i < |words| && !words[i].hidden && words[i].name != [] ==> !SameButCase(words[i].name, name)
      case Some(k) =>
        && k < |words| && !words[k].hidden && words[k].name != [] && SameButCase(words[k].name, name)
        && forall i :: k < i < |words| && !words[i].hidden && words[i].name != [] ==> !SameButCase(words[i].name, name)
    ensures SameButCase(name, other) ==> Newest(words, name) == Newest(words, other)
  {
    NewestIs(words, name);
    NewestIs(words, other);
    forall a, b ensures SameName(a, b) <==> SameButCase(a, b) {
      CaseOnly(a, b);
    }
    hide Newest, SameButCase, SameName;
    if SameButCase(name, other) {
      forall i | 0 <= i < |words| ensures Matches(words[i], name) <==> Matches(words[i], other) {
        SameNameThrough(words[i].name, name, other);
      }
    }
  }

  lemma CaseOnly(a: seq<Byte>, b: seq<Byte>)
    ensures SameName(a, b) <==> SameButCase(a, b)
  {}

  lemma SameNameThrough(a: seq<Byte>, b: seq<Byte>, c: seq<Byte>)
    requires SameName(b, c)
    ensures SameName(a, b) <==> SameName(a, c)
  {}

  // ---- the operations in place -----------------------------------------------------------

  class Context {
    var words: seq<Word>
    var here: int
    const end: int
    /** The cells of the data space that have been stored to. */
    var cells: map<int, int>
    /** How many words are built in. */
    ghost const builtin: nat

    function State(): Space
      reads this
    {
      Space(words, here, end)
    }

    /** Built-in words have no data, but constants among them have a value in ndata. */
    constructor (builtins: seq<Word>, start: nat, end: int)
      requires start <= end && end % CELL == 0
      requires (forall w :: w in builtins ==> w.data == 0) && (builtins != [] ==> !builtins[|builtins| - 1].hidden)
      ensures State() == Space(builtins, start, end) && cells == map[] && builtin == |builtins|
      ensures InOrder(State(), builtin)
    {
      words, here, this.end, cells, builtin := builtins, start, end, map[], |builtins|;
      BuiltinsInOrder(builtins, start, end);
    }

    method Allot(n: int) returns (start: Option<int>)
      modifies `words, `here
      ensures
        match Allotted(old(State()), n)
        case None => start == None && State() == old(State())
        case Some(s) => start == Some(old(here)) && State() == s
    {
      if end <= here + n {
        return None;
      }
      if words != [] {
        var w := words[|words| - 1];
        if here + n < w.data {
          return None;
        }
        words := words[|words| - 1 := w.(ndata := w.ndata + n)];
      }
      start := Some(here);
      here := here + n;
    }

    method WordCreate(name: seq<Byte>, code: Code) returns (index: nat)
      modifies `words, `here
      ensures State() == Created(old(State()), name, code) && index == old(|words|)
    {
      here := Align(here);
      var word := Word(name, code, false, here, 0);
      index := |words|;
      words := words + [word];
    }

    method WordAppend(x: int) returns (stored: bool)
      modifies `words, `here, `cells
      ensures
        match Appended(old(State()))
        case None => !stored && State() == Padded(old(State())) && cells == old(cells)
        case Some(s) => stored && State() == s && cells == old(cells)[here - CELL := x]
    {
      var _ := Allot(Align(here) - here);
      var start := Allot(CELL);
      if start.None? {
        return false;
      }
      cells := cells[start.value := x];
      stored := true;
    }

    /** P4_WORD_SET_HIDDEN and P4_WORD_CLEAR_HIDDEN on the newest word. */
    method MarkHidden(hidden: bool)
      requires words != []
      modifies `words
      ensures State() == SetHidden(old(State()), hidden)
    {
      words := words[|words| - 1 := words[|words| - 1].(hidden := hidden)];
    }

    method DiscardUnfinished()
      modifies `words, `here
      ensures State() == Discarded(old(State()))
    {
      if words != [] && words[|words| - 1].hidden {
        here := words[|words| - 1].data;
        words := words[..|words| - 1];
      }
    }

    /** One operation, with what becomes of the throw if it is refused. */
    method PerformOne(op: Operation)
      modifies `words, `here, `cells
      ensures State() == Step(old(State()), op)
    {
      hide Allotted, Padded, Align;
      match op
      case Create(name) => var _ := WordCreate(name, Enter);
      case Colon(name) =>
        var _ := WordCreate(name, Enter);
        MarkHidden(true);
      case Reveal =>
        if words != [] {
          MarkHidden(false);
        }
      case Append(x, throw) =>
        var stored := WordAppend(x);
        if !stored {
          Recover(throw);
        }
      case Allot(n, throw) =>
        var start := Allot(n);
        if start.None? {
          Recover(throw);
        }
      case Raise(throw) => Recover(throw);
    }

    method Recover(throw: Throw)
      modifies `words, `here
      ensures State() == AfterThrow(old(State()), throw)
    {
      match throw
      case Reported => DiscardUnfinished();
      case Passed =>
    }

    /** Any run of operations, from a state in order, leaves one in order. */
    method Perform(ops: seq<Operation>)
      requires InOrder(State(), builtin)
      modifies `words, `here, `cells
      ensures InOrder(State(), builtin) && State() == Run(old(State()), ops)
    {
      hide InOrder, Step;
      RunKeepsOrder(State(), builtin, ops);
      var i := 0;
      assert ops[0..] == ops;
      while i < |ops|
        invariant 0 <= i <= |ops| && Run(State(), ops[i..]) == Run(old(State()), ops)
      {
        assert ops[i..][1..] == ops[i + 1..];
        PerformOne(ops[i]);
        i := i + 1;
      }
    }

    /** p4FindNameIn. */
    method FindName(name: seq<Byte>) returns (found: Option<nat>)
      ensures found == Newest(words, name)
    {
      var i := |words|;
      assert words[..i] == words;
      while i != 0
        invariant 0 <= i <= |words| && Newest(words[..i], name) == Newest(words, name)
      {
        assert words[..i][..i - 1] == words[..i - 1];
        i := i - 1;
        if Matches(words[i], name) {
          return Some(i);
        }
      }
      found := None;
    }
  }
}
