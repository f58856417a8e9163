/** Colon words of Post4: the compile loop of the interpreter, the threaded code it lays down,
    and the inner interpreter that runs it. */
module ThreadedCode {
  import opened Cell
  import opened Characters
  import opened DoubleCell
  import NumberInput
  import opened Dictionary
  import opened Options

  /** One step of a definition's source: a named word, by its place in the word list, or a
      number. */
  datatype Item = Call(word: nat) | Push(n: int)

  /** The places of LIT and of the word that ends a definition, and the token that w_inter_loop
      stands for, which is in no word list. */
  const LIT := 1
  const SEMI := 2
  const INTER_LOOP := -1
  const EXEC := -16

  // ---- what a source text says ------------------------------------------------------------

  function Numeral(token: seq<Byte>, radix: nat): Option<seq<Item>> {
    match NumberInput.Meaning(token, radix)
    case NotANumber => None
    case Character(code) => Some([Push(Wrap(W64, code))])
    case Integer(n, double) =>
      var v := Wrap2(W64, n);
      Some(if double then [Push(v % W64.Base()), Push(v / W64.Base())] else [Push(v % W64.Base())])
  }

  /** A token is the newest visible word of that name, or else a number. */
  function Translation(words: seq<Word>, radix: nat, token: seq<Byte>): Option<seq<Item>> {
    match Newest(words, token)
    case Some(k) => Some([Call(k)])
    case None => Numeral(token, radix)
  }

  function Source(words: seq<Word>, radix: nat, tokens: seq<seq<Byte>>): Option<seq<Item>> {
    if tokens == [] then Some([])
    else
      match Translation(words, radix, tokens[0])
      case None => None
      case Some(first) =>
        match Source(words, radix, tokens[1..])
        case None => None
        case Some(rest) => Some(first + rest)
  }

  // ---- what it is compiled to ---------------------------------------------------------------

  function EncodeItem(item: Item): seq<int> {
    match item
    case Call(k) => [k]
    case Push(n) => [LIT, n]
  }

  function Encode(items: seq<Item>): seq<int> {
    if items == [] then [] else EncodeItem(items[0]) + Encode(items[1..])
  }

  lemma {:induction false} EncodeConcat(a: seq<Item>, b: seq<Item>)
    ensures Encode(a + b) == Encode(a) + Encode(b)
    decreases |a|
  {
    if a == [] {
      assert a + b == b;
    } else {
      assert (a + b)[0] == a[0] && (a + b)[1..] == a[1..] + b;
      EncodeConcat(a[1..], b);
    }
  }

  /** The cells from address a on hold code. */
  ghost predicate At(cells: map<int, int>, a: int, code: seq<int>)
    decreases |code|
  {
    code == [] || (a in cells && cells[a] == code[0] && At(cells, a + CELL, code[1..]))
  }

  ghost predicate Agree(m: map<int, int>, n: map<int, int>, low: int, high: int) {
    forall a :: a in m && low <= a < high ==> a in n && n[a] == m[a]
  }

  lemma {:induction false} AtSame(m: map<int, int>, n: map<int, int>, a: int, code: seq<int>)
    requires At(m, a, code) && Agree(m, n, a, a + CELL * |code|)
    ensures At(n, a, code)
    decreases |code|
  {
    if code == [] {
    } else {
      AtSame(m, n, a + CELL, code[1..]);
    }
  }

  lemma {:induction false} AtAppend(m: map<int, int>, a: int, code: seq<int>, x: int)
    requires At(m, a, code)
    ensures At(m[a + CELL * |code| := x], a, code + [x])
    decreases |code|
  {
    var n := m[a + CELL * |code| := x];
    if code == [] {
    } else {
      AtAppend(m, a + CELL, code[1..], x);
      assert (code + [x])[1..] == code[1..] + [x];
    }
  }

  // ---- the book ------------------------------------------------------------------------------

  /** The word list, the source each colon word was made from, and the data space. */
  datatype Book = Book(words: seq<Word>, sources: seq<seq<Item>>, cells: map<int, int>, here: int)

  /** Only words older than k. */
  ghost predicate Older(items: seq<Item>, k: nat) {
    forall i :: 0 <= i < |items| && items[i].Call? ==> items[i].word < k
  }

  /** Word k, if a colon word, has its source's code, ended by SEMI, in its own data area. */
  ghost predicate Holds(b: Book, k: nat)
    requires k < |b.words| == |b.sources|
  {
    var code := Encode(b.sources[k]) + [SEMI];
    b.words[k].code == Enter ==>
      && Older(b.sources[k], k)
      && At(b.cells, b.words[k].data, code)
      && 0 <= b.words[k].data && b.words[k].data + CELL * |code| <= b.here
  }

  ghost predicate Sound(b: Book) {
    && |b.sources| == |b.words| && SEMI < |b.words|
    && b.words[LIT].code == Lit && b.words[SEMI].code == Exit
    && forall k :: 0 <= k < |b.words| ==> Holds(b, k)
  }

  // ---- what a word means ------------------------------------------------------------------------

  /** What the primitives do to the data stack, top last; None is a throw. */
  type Effect = (nat, seq<int>) -> Option<seq<int>>

  /** The word can be executed and its source has a meaning: it and the words it calls use LIT,
      which takes its operand from the code after it, only before the name of a word. */
  ghost predicate Meaningful(b: Book, x: nat)
    requires |b.sources| == |b.words|
    decreases x, 1, 0
  {
    && x < |b.words| && (b.words[x].code == Enter || b.words[x].code.Primitive?)
    && (b.words[x].code == Enter ==> MeaningfulItems(b, x, b.sources[x]))
  }

  ghost predicate MeaningfulItems(b: Book, x: nat, items: seq<Item>)
    requires |b.sources| == |b.words| && x <= |b.words|
    decreases x, 0, |items|
  {
    items == [] ||
    match items[0]
    case Push(_) => MeaningfulItems(b, x, items[1..])
    case Call(k) =>
      k < x &&
      match b.words[k].code
      case Exit => true
      case Lit => |items| >= 2 && items[1].Call? && MeaningfulItems(b, x, items[2..])
      case _ => Meaningful(b, k) && MeaningfulItems(b, x, items[1..])
  }

  /** The meaning of a word, by recursion on its source. */
  ghost function Eval(b: Book, e: Effect, x: nat, ds: seq<int>): Option<seq<int>>
    requires |b.sources| == |b.words| && Meaningful(b, x)
    decreases x, 1, 0
  {
    match b.words[x].code
    case Primitive(id) => e(id, ds)
    case Enter => EvalItems(b, e, x, b.sources[x], ds)
  }

  /** EXIT leaves the word early, and LIT pushes the token of the word named after it. */
  ghost function EvalItems(b: Book, e: Effect, x: nat, items: seq<Item>, ds: seq<int>): Option<seq<int>>
    requires |b.sources| == |b.words| && x <= |b.words| && MeaningfulItems(b, x, items)
    decreases x, 0, |items|
  {
    if items == [] then Some(ds)
    else
      match items[0]
      case Push(n) => EvalItems(b, e, x, items[1..], ds + [n])
      case Call(k) =>
        match b.words[k].code
        case Exit => Some(ds)
        case Lit => EvalItems(b, e, x, items[2..], ds + [items[1].word])
        case _ =>
          match Eval(b, e, k, ds)
          case None => None
          case Some(left) => EvalItems(b, e, x, items[1..], left)
  }

  // ---- the inner interpreter ------------------------------------------------------------------------

  datatype State =
    | Running(ip: int, rs: seq<int>, ds: seq<int>)
    | Halted(rs: seq<int>, ds: seq<int>)
    | Fault

  /** One NEXT: fetch a token, advance ip and jump to the token's code. */
  function Next(words: seq<Word>, cells: map<int, int>, e: Effect, s: State): State {
    if !s.Running? then s
    else if s.ip !in cells then Fault
    else
      var w, ip := cells[s.ip], s.ip + CELL;
      if w == INTER_LOOP then Halted(s.rs, s.ds)
      else if w < 0 || |words| <= w then Fault
      else
        match words[w].code
        case Enter => Running(words[w].data, s.rs + [ip], s.ds)
        case Exit => if s.rs == [] then Fault else Running(s.rs[|s.rs| - 1], s.rs[..|s.rs| - 1], s.ds)
        case Lit => if ip !in cells then Fault else Running(ip + CELL, s.rs, s.ds + [cells[ip]])
        case Primitive(id) =>
          match e(id, s.ds)
          case None => Fault
          case Some(ds) => Running(ip, s.rs, ds)
  }

  function Steps(words: seq<Word>, cells: map<int, int>, e: Effect, n: nat, s: State): State
    decreases n
  {
    if n == 0 then s else Steps(words, cells, e, n - 1, Next(words, cells, e, s))
  }

  lemma {:induction false} StepsCompose(words: seq<Word>, cells: map<int, int>, e: Effect, m: nat, n: nat, s: State)
    ensures Steps(words, cells, e, m + n, s) == Steps(words, cells, e, n, Steps(words, cells, e, m, s))
    decreases m
  {
    if m == 0 {
    } else {
      StepsCompose(words, cells, e, m - 1, n, Next(words, cells, e, s));
    }
  }

  lemma {:induction false} FaultStays(words: seq<Word>, cells: map<int, int>, e: Effect, n: nat, s: State)
    requires !s.Running?
    ensures Steps(words, cells, e, n, s) == s
    decreases n
  {
    if n == 0 {
    } else {
      FaultStays(words, cells, e, n - 1, s);
    }
  }

  /** How many tokens a word takes to execute. */
  ghost function Cost(b: Book, e: Effect, x: nat, ds: seq<int>): (n: nat)
    requires |b.sources| == |b.words| && Meaningful(b, x)
    decreases x, 1, 0
  {
    match b.words[x].code
    case Primitive(_) => 1
    case Enter => 1 + CostItems(b, e, x, b.sources[x], ds)
  }

  ghost function CostItems(b: Book, e: Effect, x: nat, items: seq<Item>, ds: seq<int>): (n: nat)
    requires |b.sources| == |b.words| && x <= |b.words| && MeaningfulItems(b, x, items)
    decreases x, 0, |items|
  {
    if items == [] then 1
    else
      match items[0]
      case Push(n) => 1 + CostItems(b, e, x, items[1..], ds + [n])
      case Call(k) =>
        match b.words[k].code
        case Exit => 1
        case Lit => 1 + CostItems(b, e, x, items[2..], ds + [items[1].word])
        case _ =>
          Cost(b, e, k, ds) +
          match Eval(b, e, k, ds)
          case None => 0
          case Some(left) => CostItems(b, e, x, items[1..], left)
  }

  function Returned(r: Option<seq<int>>, ip: int, rs: seq<int>): State {
    match r
    case None => Fault
    case Some(ds) => Running(ip, rs, ds)
  }

  /** Executing any word by its token takes a known number of steps, comes back to the cell
      after the token with the return stack as it was, and has the effect its source means. */
  lemma {:induction false} WordRuns(b: Book, e: Effect, x: nat, ip: int, rs: seq<int>, ds: seq<int>)
    requires Sound(b) && Meaningful(b, x) && ip in b.cells && b.cells[ip] == x
    ensures Steps(b.words, b.cells, e, Cost(b, e, x, ds), Running(ip, rs, ds))
         == Returned(Eval(b, e, x, ds), ip + CELL, rs)
    decreases x, 1, 0
  {
    hide Sound;
    var s := Running(ip, rs, ds);
    if b.words[x].code == Enter {
      SoundHolds(b, x);
      var back := ip + CELL;
      assert Next(b.words, b.cells, e, s) == Running(b.words[x].data, rs + [back], ds);
      BodyRuns(b, e, x, b.sources[x], b.words[x].data, rs, back, ds);
    } else {
      var t := Next(b.words, b.cells, e, s);
      assert Steps(b.words, b.cells, e, 0, t) == t;
    }
  }

  lemma SoundHolds(b: Book, k: nat)
    requires Sound(b) && k < |b.words|
    ensures |b.words| == |b.sources| && Holds(b, k)
  {}

  /** The same for the rest of a body. */
  lemma {:induction false} BodyRuns(b: Book, e: Effect, x: nat, items: seq<Item>, ip: int, rs: seq<int>, back: int, ds: seq<int>)
    requires Sound(b) && x < |b.words| && MeaningfulItems(b, x, items)
    requires At(b.cells, ip, Encode(items) + [SEMI])
    ensures Steps(b.words, b.cells, e, CostItems(b, e, x, items, ds), Running(ip, rs + [back], ds))
         == Returned(EvalItems(b, e, x, items, ds), back, rs)
    decreases x, 0, |items|
  {
    var code := Encode(items) + [SEMI];
    var s := Running(ip, rs + [back], ds);
    if items == [] {
      ExitReturns(b, e, SEMI, ip, rs, back, ds);
    } else {
      match items[0] {
        case Push(n) =>
          assert code[0] == LIT && code[1] == n && code[1..][1..] == Encode(items[1..]) + [SEMI];
          assert Next(b.words, b.cells, e, s) == Running(ip + CELL + CELL, rs + [back], ds + [n]);
          BodyRuns(b, e, x, items[1..], ip + CELL + CELL, rs, back, ds + [n]);
        case Call(k) =>
          assert code[0] == k && code[1..] == Encode(items[1..]) + [SEMI];
          if b.words[k].code == Exit {
            ExitReturns(b, e, k, ip, rs, back, ds);
          } else if b.words[k].code == Lit {
            LitRuns(b, e, x, items, ip, rs, back, ds);
          } else {
            CallRuns(b, e, x, items, ip, rs, back, ds);
          }
      }
    }
  }

  lemma ExitReturns(b: Book, e: Effect, k: nat, ip: int, rs: seq<int>, back: int, ds: seq<int>)
    requires k < |b.words| && b.words[k].code == Exit && ip in b.cells && b.cells[ip] == k
    ensures Steps(b.words, b.cells, e, 1, Running(ip, rs + [back], ds)) == Running(back, rs, ds)
  {
    assert (rs + [back])[..|rs|] == rs;
    var t := Next(b.words, b.cells, e, Running(ip, rs + [back], ds));
    assert Steps(b.words, b.cells, e, 0, t) == t;
  }

  lemma {:induction false} LitRuns(b: Book, e: Effect, x: nat, items: seq<Item>, ip: int, rs: seq<int>, back: int, ds: seq<int>)
    requires Sound(b) && x < |b.words| && MeaningfulItems(b, x, items)
    requires items != [] && items[0].Call? && b.words[items[0].word].code == Lit
    requires ip in b.cells && b.cells[ip] == items[0].word && At(b.cells, ip + CELL, Encode(items[1..]) + [SEMI])
    ensures Steps(b.words, b.cells, e, CostItems(b, e, x, items, ds), Running(ip, rs + [back], ds))
         == Returned(EvalItems(b, e, x, items, ds), back, rs)
    decreases x, 0, |items|, 0
  {
    hide Sound;
    var j, code := items[1].word, Encode(items[1..]) + [SEMI];
    assert items[1..][1..] == items[2..];
    assert code[0] == j && code[1..] == Encode(items[2..]) + [SEMI];
    assert Next(b.words, b.cells, e, Running(ip, rs + [back], ds)) == Running(ip + CELL + CELL, rs + [back], ds + [j]);
    BodyRuns(b, e, x, items[2..], ip + CELL + CELL, rs, back, ds + [j]);
  }

  lemma {:induction false} CallRuns(b: Book, e: Effect, x: nat, items: seq<Item>, ip: int, rs: seq<int>, back: int, ds: seq<int>)
    requires Sound(b) && x < |b.words| && MeaningfulItems(b, x, items)
    requires items != [] && items[0].Call? && b.words[items[0].word].code != Exit && b.words[items[0].word].code != Lit
    requires ip in b.cells && b.cells[ip] == items[0].word && At(b.cells, ip + CELL, Encode(items[1..]) + [SEMI])
    ensures Steps(b.words, b.cells, e, CostItems(b, e, x, items, ds), Running(ip, rs + [back], ds))
         == Returned(EvalItems(b, e, x, items, ds), back, rs)
    decreases x, 0, |items|, 0
  {
    var k := items[0].word;
    var cost := Cost(b, e, k, ds);
    WordRuns(b, e, k, ip, rs + [back], ds);
    match Eval(b, e, k, ds) {
      case None =>
      case Some(left) =>
        BodyRuns(b, e, x, items[1..], ip + CELL, rs, back, left);
        StepsCompose(b.words, b.cells, e, cost, CostItems(b, e, x, items[1..], left), Running(ip, rs + [back], ds));
    }
  }

  // ---- a definition leaves the older words alone ------------------------------------------------------

  /** c is b with more words and more code. */
  ghost predicate Extends(b: Book, c: Book) {
    |b.words| <= |c.words| && c.words[..|b.words|] == b.words && |b.sources| <= |c.sources| && c.sources[..|b.sources|] == b.sources
  }

  /** Redefining a name never changes what was compiled with the older word of that name. */
  lemma {:induction false} MeaningKept(b: Book, c: Book, e: Effect, x: nat, ds: seq<int>)
    requires |b.sources| == |b.words| && |c.sources| == |c.words| && Extends(b, c) && Meaningful(b, x)
    ensures Meaningful(c, x) && Eval(c, e, x, ds) == Eval(b, e, x, ds)
    decreases x, 1, 0
  {
    assert c.words[x] == c.words[..|b.words|][x];
    if b.words[x].code != Enter {
    } else {
      assert c.sources[x] == c.sources[..|b.sources|][x];
      ItemsKept(b, c, e, x, b.sources[x], ds);
    }
  }

  lemma {:induction false} ItemsKept(b: Book, c: Book, e: Effect, x: nat, items: seq<Item>, ds: seq<int>)
    requires |b.sources| == |b.words| && |c.sources| == |c.words| && Extends(b, c)
    requires x <= |b.words| && MeaningfulItems(b, x, items)
    ensures MeaningfulItems(c, x, items) && EvalItems(c, e, x, items, ds) == EvalItems(b, e, x, items, ds)
    decreases x, 0, |items|
  {
    if items == [] {
    } else {
      match items[0] {
        case Push(n) => ItemsKept(b, c, e, x, items[1..], ds + [n]);
        case Call(k) =>
          assert c.words[k] == c.words[..|b.words|][k];
          match b.words[k].code {
            case Exit =>
            case Lit => ItemsKept(b, c, e, x, items[2..], ds + [items[1].word]);
            case _ => CallKept(b, c, e, x, items, ds);
          }
      }
    }
  }

  lemma {:induction false} CallKept(b: Book, c: Book, e: Effect, x: nat, items: seq<Item>, ds: seq<int>)
    requires |b.sources| == |b.words| && |c.sources| == |c.words| && Extends(b, c)
    requires x <= |b.words| && MeaningfulItems(b, x, items) && items != [] && items[0].Call?
    requires var code := b.words[items[0].word].code; code != Exit && code != Lit && c.words[items[0].word].code == code
    ensures MeaningfulItems(c, x, items) && EvalItems(c, e, x, items, ds) == EvalItems(b, e, x, items, ds)
    decreases x, 0, |items|, 0
  {
    var k := items[0].word;
    MeaningKept(b, c, e, k, ds);
    match Eval(b, e, k, ds) {
      case None => ItemsKept(b, c, e, x, items[1..], ds);
      case Some(left) => ItemsKept(b, c, e, x, items[1..], left);
    }
  }

  /** Where no source names LIT every word has a meaning. */
  lemma {:induction false} WithoutLit(b: Book, x: nat)
    requires Sound(b) && x < |b.words| && (b.words[x].code == Enter || b.words[x].code.Primitive?)
    requires forall k :: 0 <= k < x && b.words[k].code == Enter ==> NoLit(b.words, b.sources[k])
    requires b.words[x].code == Enter ==> NoLit(b.words, b.sources[x])
    ensures Meaningful(b, x)
    decreases x, 1, 0
  {
    hide Sound;
    SoundHolds(b, x);
    if b.words[x].code != Enter {
    } else {
      WithoutLitItems(b, x, b.sources[x]);
    }
  }

  ghost predicate NoLit(words: seq<Word>, items: seq<Item>) {
    forall i :: 0 <= i < |items| && items[i].Call? && items[i].word < |words| ==> words[items[i].word].code != Lit
  }

  lemma {:induction false} WithoutLitItems(b: Book, x: nat, items: seq<Item>)
    requires Sound(b) && x < |b.words| && Older(items, x) && NoLit(b.words, items)
    requires forall k :: 0 <= k < x && b.words[k].code == Enter ==> NoLit(b.words, b.sources[k])
    ensures MeaningfulItems(b, x, items)
    decreases x, 0, |items|
  {
    hide Sound;
    SoundHolds(b, x);
    if items == [] {
    } else {
      if items[0].Call? && b.words[items[0].word].code != Exit {
        WithoutLit(b, items[0].word);
      }
      WithoutLitItems(b, x, items[1..]);
    }
  }

  // ---- the word under construction ----------------------------------------------------------------------

  /** The space while a definition is compiled: the new word, hidden, with n cells so far. */
  function Growing(words: seq<Word>, name: seq<Byte>, data: int, n: nat, end: int): Space {
    Space(words + [Word(name, Enter, true, data, CELL * n)], data + CELL * n, end)
  }

  lemma GrowOne(words: seq<Word>, name: seq<Byte>, data: int, n: nat, end: int)
    requires data % CELL == 0
    ensures
      var s := Growing(words, name, data, n, end);
      && Padded(s) == s
      && Appended(s) == if data + CELL * (n + 1) < end then Some(Growing(words, name, data, n + 1, end)) else None
  {
    hide Allotted, Growing, Align;
    var s := Growing(words, name, data, n, end);
    StaysAligned(data, n);
    GrowBy(words, name, data, n, end, 0);
    GrowBy(words, name, data, n, end, 1);
  }

  lemma StaysAligned(data: int, n: nat)
    requires data % CELL == 0
    ensures Align(data + CELL * n) == data + CELL * n
  {
    assert data == CELL * (data / CELL);
    assert (data + CELL * n) % CELL == 0;
  }

  lemma GrowBy(words: seq<Word>, name: seq<Byte>, data: int, n: nat, end: int, k: nat)
    ensures Growing(words, name, data, n, end).here == data + CELL * n
    ensures Allotted(Growing(words, name, data, n, end), CELL * k)
         == if data + CELL * (n + k) < end then Some(Growing(words, name, data, n + k, end)) else None
  {
    var s, w := Growing(words, name, data, n, end), Word(name, Enter, true, data, CELL * n);
    assert s.Active() == w;
    assert s.words[|s.words| - 1 := w.(ndata := CELL * (n + k))] == words + [w.(ndata := CELL * (n + k))];
  }

  lemma GrowNothing(words: seq<Word>, name: seq<Byte>, here: int, end: int)
    ensures SetHidden(Created(Space(words, here, end), name, Enter), true) == Growing(words, name, Align(here), 0, end)
  {
    var w := Word(name, Enter, false, Align(here), 0);
    assert (words + [w])[|words| := w.(hidden := true)] == words + [w.(hidden := true)];
  }

  lemma GrownDiscarded(words: seq<Word>, name: seq<Byte>, data: int, n: nat, end: int)
    ensures Discarded(Growing(words, name, data, n, end)) == Space(words, data, end)
  {
    assert Growing(words, name, data, n, end).words[..|words|] == words;
  }

  lemma GrownRevealed(words: seq<Word>, name: seq<Byte>, data: int, n: nat, end: int)
    ensures SetHidden(Growing(words, name, data, n, end), false)
         == Space(words + [Word(name, Enter, false, data, CELL * n)], data + CELL * n, end)
    ensures Growing(words, name, data, n, end).words == words + [Word(name, Enter, true, data, CELL * n)]
  {
    var w := Word(name, Enter, true, data, CELL * n);
    assert (words + [w])[|words| := w.(hidden := false)] == words + [w.(hidden := false)];
  }

  /** A finished word's code lies past all older data. */
  lemma OrderGrows(words: seq<Word>, k: nat, here: int, name: seq<Byte>, n: nat, end: int)
    requires InOrder(Space(words, here, end), k) && Align(here) + CELL * n < end
    ensures
      var data := Align(here);
      InOrder(Space(words + [Word(name, Enter, false, data, CELL * n)], data + CELL * n, end), k)
  {}

  lemma OrderAligned(words: seq<Word>, k: nat, here: int, end: int)
    requires InOrder(Space(words, here, end), k)
    ensures InOrder(Space(words, Align(here), end), k)
  {}

  /** The word under construction cannot be found, so its source cannot name it. */
  lemma HiddenIsNotFound(words: seq<Word>, w: Word, name: seq<Byte>)
    requires w.hidden
    ensures Newest(words + [w], name) == Newest(words, name)
  {
    assert (words + [w])[..|words|] == words;
  }

  lemma {:induction false} SourceIsOlder(words: seq<Word>, radix: nat, tokens: seq<seq<Byte>>)
    requires Source(words, radix, tokens).Some?
    ensures Older(Source(words, radix, tokens).value, |words|)
  {
    if tokens == [] {
    } else {
      NewestIs(words, tokens[0]);
      SourceIsOlder(words, radix, tokens[1..]);
    }
  }

  /** The source so far, followed by what the remaining tokens say. */
  function Following(done: seq<Item>, rest: Option<seq<Item>>): Option<seq<Item>> {
    match rest
    case None => None
    case Some(items) => Some(done + items)
  }

  /** Adding a word whose code was stored past all others. */
  lemma BookGrows(b: Book, w: Word, items: seq<Item>, cells: map<int, int>)
    requires Sound(b) && w.code == Enter && Older(items, |b.words|)
    requires 0 <= w.data && b.here <= w.data && At(cells, w.data, Encode(items) + [SEMI])
    requires Agree(b.cells, cells, 0, w.data)
    ensures Sound(Book(b.words + [w], b.sources + [items], cells, w.data + CELL * (|Encode(items)| + 1)))
  {
    var c := Book(b.words + [w], b.sources + [items], cells, w.data + CELL * (|Encode(items)| + 1));
    forall k | 0 <= k < |c.words| ensures Holds(c, k) {
      if k < |b.words| {
        HoldsKept(b, c, k);
      }
    }
  }

  lemma HoldsKept(b: Book, c: Book, k: nat)
    requires k < |b.words| == |b.sources| && |c.words| == |c.sources| && Extends(b, c) && Holds(b, k) && b.here <= c.here
    requires Agree(b.cells, c.cells, 0, b.here)
    ensures Holds(c, k)
  {
    hide Encode;
    assert c.words[k] == c.words[..|b.words|][k] == b.words[k];
    assert c.sources[k] == c.sources[..|b.words|][k] == b.sources[k];
    if b.words[k].code == Enter {
      AtSame(b.cells, c.cells, b.words[k].data, Encode(b.sources[k]) + [SEMI]);
    }
  }

  /** Changing no cell below here, and here only upwards, keeps every definition. */
  lemma BookKept(b: Book, cells: map<int, int>, here: int)
    requires Sound(b) && b.here <= here && Agree(b.cells, cells, 0, here)
    ensures Sound(Book(b.words, b.sources, cells, here))
  {
    var c := Book(b.words, b.sources, cells, here);
    forall k | 0 <= k < |c.words| ensures Holds(c, k) {
      HoldsKept(b, c, k);
    }
  }

  lemma ExtendsTransitive(a: Book, b: Book, c: Book)
    requires Extends(a, b) && Extends(b, c)
    ensures Extends(a, c)
  {
    assert c.words[..|a.words|] == c.words[..|b.words|][..|a.words|];
    assert c.sources[..|a.sources|] == c.sources[..|b.sources|][..|a.sources|];
  }

  /** Execution from exec[] ends, with what the word means. */
  lemma ExecutionEnds(b: Book, cells: map<int, int>, e: Effect, x: nat, rs: seq<int>, ds: seq<int>) returns (total: nat)
    requires Sound(b) && Meaningful(b, x) && cells == b.cells[EXEC := x][EXEC + CELL := INTER_LOOP]
    ensures Steps(b.words, cells, e, total, Running(EXEC, rs, ds))
         == match Eval(b, e, x, ds) case None => Fault case Some(left) => Halted(rs, left)
  {
    hide Sound, Eval, Cost, Holds;
    var c := Book(b.words, b.sources, cells, b.here);
    BookKept(b, cells, b.here);
    MeaningKept(b, c, e, x, ds);
    WordRuns(c, e, x, EXEC, rs, ds);
    total := Cost(c, e, x, ds);
    if Eval(b, e, x, ds).Some? {
      var s := Running(EXEC + CELL, rs, Eval(b, e, x, ds).value);
      StepsCompose(b.words, cells, e, total, 1, Running(EXEC, rs, ds));
      assert Steps(b.words, cells, e, 0, Next(b.words, cells, e, s)) == Next(b.words, cells, e, s);
      total := total + 1;
    }
  }

  /** While running, the end is still ahead; the next step leads towards it or is it. */
  lemma OneMore(words: seq<Word>, cells: map<int, int>, e: Effect, n: nat, total: nat, start: State)
    requires n <= total && Steps(words, cells, e, n, start).Running? && !Steps(words, cells, e, total, start).Running?
    ensures n < total
    ensures Steps(words, cells, e, n + 1, start) == Next(words, cells, e, Steps(words, cells, e, n, start))
    ensures !Steps(words, cells, e, n + 1, start).Running? ==> Steps(words, cells, e, n + 1, start) == Steps(words, cells, e, total, start)
  {
    var s := Steps(words, cells, e, n, start);
    var t := Next(words, cells, e, s);
    StepsCompose(words, cells, e, n, 1, start);
    assert Steps(words, cells, e, 0, t) == t;
    if n < total && !t.Running? {
      StepsCompose(words, cells, e, n + 1, total - n - 1, start);
      FaultStays(words, cells, e, total - n - 1, t);
    }
  }

  /** The cells of num after a number was read. */
  lemma NumberCells(lo: nat, hi: nat, n: int)
    requires lo < W64.Base() && hi < W64.Base() && Double(W64, lo, hi) == Wrap2(W64, n)
    ensures lo == Wrap2(W64, n) % W64.Base() && hi == Wrap2(W64, n) / W64.Base()
  {
    DivModUnique(Wrap2(W64, n), W64.Base(), hi, lo);
  }

  lemma EmptyCode(cells: map<int, int>, data: int)
    ensures At(cells, data, []) && Agree(cells, cells, 0, data) && Encode([]) == []
  {}

  lemma EncodeLiterals(done: seq<Item>, n0: int, n1: int)
    ensures Encode(done + [Push(n0)]) == Encode(done) + [LIT, n0]
    ensures Encode(done + [Push(n0), Push(n1)]) == Encode(done) + [LIT, n0] + [LIT, n1]
  {
    EncodeConcat(done, [Push(n0)]);
    EncodeConcat(done, [Push(n0), Push(n1)]);
    assert [Push(n0), Push(n1)][1..] == [Push(n1)];
    assert Encode([Push(n1)]) == [LIT, n1];
    assert [LIT, n0] + [LIT, n1] == Encode([Push(n0), Push(n1)]);
  }

  lemma SourceStart(words: seq<Word>, radix: nat, tokens: seq<seq<Byte>>)
    ensures Following([], Source(words, radix, tokens[0..])) == Source(words, radix, tokens)
  {
    assert tokens[0..] == tokens;
    assert Source(words, radix, tokens).Some? ==> [] + Source(words, radix, tokens).value == Source(words, radix, tokens).value;
  }

  /** Why a definition fails: a token without meaning, or no room for the code. */
  predicate Fails(words: seq<Word>, radix: nat, tokens: seq<seq<Byte>>, data: int, end: int) {
    match Source(words, radix, tokens)
    case None => true
    case Some(items) => end <= data + CELL * (|Encode(items)| + 1)
  }

  lemma SourceStep(words: seq<Word>, radix: nat, tokens: seq<seq<Byte>>, i: nat, done: seq<Item>)
    requires i < |tokens|
    ensures Translation(words, radix, tokens[i]).Some? ==>
      Following(done, Source(words, radix, tokens[i..]))
      == Following(done + Translation(words, radix, tokens[i]).value, Source(words, radix, tokens[i + 1..]))
  {
    assert tokens[i..][1..] == tokens[i + 1..];
    if Translation(words, radix, tokens[i]).Some? && Source(words, radix, tokens[i + 1..]).Some? {
      var a, c := Translation(words, radix, tokens[i]).value, Source(words, radix, tokens[i + 1..]).value;
      assert done + (a + c) == done + a + c;
    }
  }

  lemma FailsEarly(words: seq<Word>, radix: nat, tokens: seq<seq<Byte>>, i: nat, done: seq<Item>, data: int, end: int)
    requires i < |tokens| && Following(done, Source(words, radix, tokens[i..])) == Source(words, radix, tokens)
    requires
      match Translation(words, radix, tokens[i])
      case None => true
      case Some(items) => end <= data + CELL * |Encode(done + items)|
    ensures Fails(words, radix, tokens, data, end)
  {
    SourceStep(words, radix, tokens, i, done);
    if Source(words, radix, tokens).Some? {
      assert tokens[i..][1..] == tokens[i + 1..];
      EncodeConcat(done + Translation(words, radix, tokens[i]).value, Source(words, radix, tokens[i + 1..]).value);
    }
  }

  lemma SourceEnd(words: seq<Word>, radix: nat, tokens: seq<seq<Byte>>, done: seq<Item>)
    requires Following(done, Source(words, radix, tokens[|tokens|..])) == Source(words, radix, tokens)
    ensures Source(words, radix, tokens) == Some(done)
  {
    assert done + [] == done;
  }

  class Interpreter {
    const context: Context
    const radix: nat
    ghost var sources: seq<seq<Item>>

    ghost function Contents(): Book
      reads this, context
    {
      Book(context.words, sources, context.cells, context.here)
    }

    ghost predicate Valid()
      reads this, context
    {
      Sound(Contents()) && InOrder(context.State(), context.builtin) && 0 <= context.here && radix < W64.Base()
    }

    /** Starts with the built-in words, none of which is a colon word. */
    constructor (builtins: seq<Word>, start: nat, end: int, radix: nat)
      requires start <= end && end % CELL == 0 && radix < W64.Base()
      requires (forall w :: w in builtins ==> w.data == 0) && (builtins != [] ==> !builtins[|builtins| - 1].hidden)
      requires SEMI < |builtins| && builtins[LIT].code == Lit && builtins[SEMI].code == Exit
      requires forall w :: w in builtins ==> w.code != Enter
      ensures Valid() && fresh(context) && context.State() == Space(builtins, start, end)
    {
      var c := new Context(builtins, start, end);
      context, this.radix := c, radix;
      sources := seq(|builtins|, _ => []);
    }

    /** What holds between two tokens of a definition. */
    ghost predicate Compiling(b: Book, name: seq<Byte>, data: int, code: seq<int>)
      reads context
    {
      && context.State() == Growing(b.words, name, data, |code|, context.end)
      && At(context.cells, data, code)
      && Agree(b.cells, context.cells, 0, data)
    }

    /** One cell of code.  When there is no room the definition is left as it was. */
    method Put(x: int, ghost b: Book, ghost name: seq<Byte>, ghost data: int, ghost code: seq<int>) returns (ok: bool)
      requires Compiling(b, name, data, code) && data % CELL == 0
      modifies context
      ensures ok <==> data + CELL * (|code| + 1) < context.end
      ensures Compiling(b, name, data, if ok then code + [x] else code)
    {
      GrowOne(b.words, name, data, |code|, context.end);
      AtAppend(context.cells, data, code, x);
      ok := context.WordAppend(x);
    }

    /** A number as code; two literals for a double. */
    method PutNumber(token: seq<Byte>, ghost b: Book, ghost name: seq<Byte>, ghost data: int, ghost done: seq<Item>)
      returns (ok: bool, ghost code: seq<int>)
      requires Compiling(b, name, data, Encode(done)) && data % CELL == 0 && radix < W64.Base()
      modifies context
      ensures Compiling(b, name, data, code)
      ensures
        match Numeral(token, radix)
        case None => !ok
        case Some(items) =>
          if ok then code == Encode(done + items) && data + CELL * |code| < context.end
          else context.end <= data + CELL * |Encode(done + items)|
    {
      hide Numeral, Encode, At, Agree, Growing;
      code := Encode(done);
      var isDouble, n0, n1;
      ok, isDouble, n0, n1 := ReadNumber(token);
      if ok {
        EncodeLiterals(done, n0, n1);
        ok, code := PutLiteral(n0, b, name, data, code);
        if ok && isDouble {
          ok, code := PutLiteral(n1, b, name, data, code);
        }
      }
    }

    method ReadNumber(token: seq<Byte>) returns (ok: bool, isDouble: bool, n0: nat, n1: nat)
      requires radix < W64.Base()
      ensures
        match Numeral(token, radix)
        case None => !ok
        case Some(items) => ok && items == if isDouble then [Push(n0), Push(n1)] else [Push(n0)]
    {
      hide Wrap2, Double, Wrap, NumberInput.Meaning;
      var num := new nat[2];
      assert (token + [0])[..|token|] == token;
      var rc, isFloat, double := NumberInput.StrNum(W64, token + [0], |token|, radix, NumberInput.NoMath, num);
      ok, isDouble, n0, n1 := rc == 0, double, num[0], num[1];
      match NumberInput.Meaning(token, radix) {
        case NotANumber =>
        case Character(_) =>
        case Integer(n, _) => NumberCells(n0, n1, n);
      }
    }

    method PutLiteral(n: int, ghost b: Book, ghost name: seq<Byte>, ghost data: int, ghost before: seq<int>)
      returns (ok: bool, ghost code: seq<int>)
      requires Compiling(b, name, data, before) && data % CELL == 0
      modifies context
      ensures Compiling(b, name, data, code)
      ensures ok <==> data + CELL * (|before| + 2) < context.end
      ensures ok ==> code == before + [LIT, n]
    {
      code := before;
      ok := Put(LIT, b, name, data, code);
      if ok {
        code := code + [LIT];
        ok := Put(n, b, name, data, code);
        if ok {
          code := code + [n];
        }
      }
    }

    /** One turn of the compile loop. */
    method CompileToken(token: seq<Byte>, ghost b: Book, ghost name: seq<Byte>, ghost data: int, ghost done: seq<Item>)
      returns (ok: bool, ghost code: seq<int>)
      requires Compiling(b, name, data, Encode(done)) && data % CELL == 0 && radix < W64.Base()
      modifies context
      ensures Compiling(b, name, data, code)
      ensures
        match Translation(b.words, radix, token)
        case None => !ok
        case Some(items) =>
          if ok then code == Encode(done + items) && data + CELL * |code| < context.end
          else context.end <= data + CELL * |Encode(done + items)|
    {
      HiddenIsNotFound(b.words, Word(name, Enter, true, data, CELL * |Encode(done)|), token);
      var found := context.FindName(token);
      if found.None? {
        ok, code := PutNumber(token, b, name, data, done);
      } else {
        code := Encode(done);
        EncodeConcat(done, [Call(found.value)]);
        ok := Put(found.value, b, name, data, code);
        if ok {
          code := code + [found.value];
        }
      }
    }

    /** A whole definition, from colon to semicolon.  It fails when a token is neither a word nor
        a number or when the space runs out, and then nothing but alignment is left of it. */
    method Define(name: seq<Byte>, tokens: seq<seq<Byte>>) returns (ok: bool)
      requires Valid()
      modifies this, context
      ensures Valid() && Extends(old(Contents()), Contents())
      ensures
        match Source(old(context.words), radix, tokens)
        case None => !ok
        case Some(items) => ok <==> Align(old(context.here)) + CELL * (|Encode(items)| + 1) < context.end
      ensures
        var data := Align(old(context.here));
        if ok then
          var items := Source(old(context.words), radix, tokens).value;
          var size := CELL * (|Encode(items)| + 1);
          && context.State() == Space(old(context.words) + [Word(name, Enter, false, data, size)], data + size, context.end)
          && sources == old(sources) + [items]
        else context.State() == Space(old(context.words), data, context.end) && sources == old(sources)
    {
      hide Sound, Source, Translation, Encode, Compiling, Newest, InOrder;
      ghost var b := Contents();
      ghost var data := Align(context.here);
      Colon(name);
      var i := 0;
      ghost var done: seq<Item> := [];
      ghost var code := Encode(done);
      SourceStart(b.words, radix, tokens);
      ok := true;
      while ok && i < |tokens|
        invariant 0 <= i <= |tokens| && radix < W64.Base()
        invariant Compiling(b, name, data, code) && sources == b.sources
        invariant ok ==> code == Encode(done) && Following(done, Source(b.words, radix, tokens[i..])) == Source(b.words, radix, tokens)
        invariant !ok ==> Fails(b.words, radix, tokens, data, context.end)
      {
        SourceStep(b.words, radix, tokens, i, done);
        ok, code := CompileToken(tokens[i], b, name, data, done);
        if ok {
          done := done + Translation(b.words, radix, tokens[i]).value;
        } else {
          FailsEarly(b.words, radix, tokens, i, done, data, context.end);
        }
        i := i + 1;
      }
      if ok {
        SourceEnd(b.words, radix, tokens, done);
        SourceIsOlder(b.words, radix, tokens);
        ok := Semicolon(b, name, data, done);
      } else {
        Discard(b, name, data, code);
      }
    }

    /** _do_colon: the new word is kept hidden. */
    method Colon(name: seq<Byte>)
      modifies context
      ensures Compiling(old(Contents()), name, Align(old(context.here)), Encode([]))
    {
      hide Encode, Growing, Agree, At;
      GrowNothing(context.words, name, context.here, context.end);
      EmptyCode(context.cells, Align(context.here));
      var _ := context.WordCreate(name, Enter);
      context.MarkHidden(true);
    }

    /** Ends the definition and makes it visible. */
    method Semicolon(ghost b: Book, ghost name: seq<Byte>, ghost data: int, ghost done: seq<Item>) returns (ok: bool)
      requires Compiling(b, name, data, Encode(done)) && data == Align(b.here) && 0 <= b.here && radix < W64.Base()
      requires InOrder(Space(b.words, b.here, context.end), context.builtin) && Sound(b) && Older(done, |b.words|) && sources == b.sources
      modifies this, context
      ensures Valid()
      ensures ok <==> data + CELL * (|Encode(done)| + 1) < context.end
      ensures
        var size := CELL * (|Encode(done)| + 1);
        if ok then
          && context.State() == Space(b.words + [Word(name, Enter, false, data, size)], data + size, context.end)
          && sources == b.sources + [done]
        else context.State() == Space(b.words, data, context.end) && sources == b.sources
    {
      hide Sound, Encode, Growing, Agree, At, InOrder;
      ok := Put(SEMI, b, name, data, Encode(done));
      if ok {
        ghost var code := Encode(done) + [SEMI];
        GrownRevealed(b.words, name, data, |code|, context.end);
        context.MarkHidden(false);
        sources := sources + [done];
        BookGrows(b, Word(name, Enter, false, data, CELL * |code|), done, context.cells);
        OrderGrows(b.words, context.builtin, b.here, name, |code|, context.end);
      } else {
        Discard(b, name, data, Encode(done));
      }
    }

    /** After a throw. */
    method Discard(ghost b: Book, ghost name: seq<Byte>, ghost data: int, ghost code: seq<int>)
      requires Compiling(b, name, data, code) && Sound(b) && 0 <= b.here && radix < W64.Base() && sources == b.sources
      requires InOrder(Space(b.words, b.here, context.end), context.builtin) && data == Align(b.here)
      modifies context
      ensures Valid() && context.State() == Space(b.words, data, context.end)
    {
      hide Sound, Growing, Agree, At, InOrder;
      OrderAligned(b.words, context.builtin, b.here, context.end);
      GrownDiscarded(b.words, name, data, |code|, context.end);
      context.DiscardUnfinished();
      BookKept(b, context.cells, data);
    }

    /** Any number of definitions, good and bad. */
    method Interpret(names: seq<seq<Byte>>, texts: seq<seq<seq<Byte>>>)
      requires Valid() && |names| == |texts|
      modifies this, context
      ensures Valid() && Extends(old(Contents()), Contents())
    {
      for i := 0 to |names|
        invariant Valid() && Extends(old(Contents()), Contents())
      {
        hide Sound, Source, Encode, Extends, InOrder;
        ghost var before := Contents();
        var ok := Define(names[i], texts[i]);
        ExtendsTransitive(old(Contents()), before, Contents());
      }
    }

    /** The interpreter executes word x from exec[] with the given return and data stacks, and
        is back when w_inter_loop comes up. */
    method Execute(x: nat, e: Effect, rs0: seq<int>, ds0: seq<int>) returns (thrown: bool, rs: seq<int>, ds: seq<int>)
      requires Valid() && Meaningful(Contents(), x)
      ensures
        match Eval(Contents(), e, x, ds0)
        case None => thrown
        case Some(left) => !thrown && rs == rs0 && ds == left
    {
      hide Sound, Eval, Cost, Holds, InOrder;
      var words, cells := context.words, context.cells[EXEC := x][EXEC + CELL := INTER_LOOP];
      var ip := EXEC;
      rs, ds, thrown := rs0, ds0, false;
      ghost var total := ExecutionEnds(Contents(), cells, e, x, rs, ds);
      ghost var n, start := 0, Running(ip, rs, ds);
      while true
        invariant n <= total && Running(ip, rs, ds) == Steps(words, cells, e, n, start)
        decreases total - n
      {
        ghost var s := Running(ip, rs, ds);
        OneMore(words, cells, e, n, total, start);
        n := n + 1;
        if ip !in cells {
          return true, rs, ds;
        }
        var w := cells[ip];
        ip := ip + CELL;
        if w == INTER_LOOP {
          return false, rs, ds;
        }
        if w < 0 || |words| <= w {
          return true, rs, ds;
        }
        match words[w].code {
          case Enter =>
            rs := rs + [ip];
            ip := words[w].data;
          case Exit =>
            if rs == [] {
              return true, rs, ds;
            }
            ip, rs := rs[|rs| - 1], rs[..|rs| - 1];
          case Lit =>
            if ip !in cells {
              return true, rs, ds;
            }
            ds := ds + [cells[ip]];
            ip := ip + CELL;
          case Primitive(id) =>
            var effect := e(id, ds);
            if effect.None? {
              return true, rs, ds;
            }
            ds := effect.value;
        }
      }
    }
  }
}
