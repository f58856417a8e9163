/** Interpreting names one by one, as at the keyboard, and the proof that compiling them into a
    definition and executing that does the same. */
module Interpretation {
  import opened Cell
  import opened Characters
  import opened DoubleCell
  import NumberInput
  import opened Dictionary
  import opened Options
  import opened ThreadedCode

  /** One more than the largest cell of 64 bits. */
  const CELLS := 0x1_0000_0000_0000_0000

  /** What a number leaves on the data stack: its value modulo 2^64, under the next 64 bits if it
      is a double. */
  ghost function NumberLeaves(token: seq<Byte>, radix: nat): Option<seq<int>> {
    match NumberInput.Meaning(token, radix)
    case NotANumber => None
    case Character(code) => Some([code % CELLS])
    case Integer(n, double) => Some(if double then [n % CELLS, n / CELLS % CELLS] else [n % CELLS])
  }

  /** The words that the names mean can be executed. */
  ghost predicate Executable(b: Book, tokens: seq<seq<Byte>>)
    requires |b.sources| == |b.words|
  {
    forall i :: 0 <= i < |tokens| ==>
      match Newest(b.words, tokens[i])
      case None => true
      case Some(k) => Meaningful(b, k)
  }

  /** Every name is executed, or else pushed as a number, in order; None is a throw. */
  ghost function Interpreted(b: Book, e: Effect, radix: nat, tokens: seq<seq<Byte>>, ds: seq<int>): Option<seq<int>>
    requires |b.sources| == |b.words| && Executable(b, tokens)
    decreases |tokens|
  {
    if tokens == [] then Some(ds)
    else
      match Newest(b.words, tokens[0])
      case Some(k) =>
        (match Eval(b, e, k, ds)
         case None => None
         case Some(left) => Interpreted(b, e, radix, tokens[1..], left))
      case None =>
        match NumberLeaves(tokens[0], radix)
        case None => None
        case Some(cells) => Interpreted(b, e, radix, tokens[1..], ds + cells)
  }

  lemma Halves(n: int)
    ensures Wrap2(W64, n) % CELLS == n % CELLS && Wrap2(W64, n) / CELLS == n / CELLS % CELLS
  {
    var w := Wrap2(W64, n);
    var k := Wrap2Of(W64, n);
    var lo, hi := w % CELLS, w / CELLS;
    DivMod(w, CELLS);
    DivBelow(w, CELLS, CELLS);
    DivBounds(w, CELLS);
    Reassociate(k, CELLS, CELLS);
    Distribute2(k * CELLS, hi, CELLS);
    DivModUnique(n, CELLS, k * CELLS + hi, lo);
    DivModUnique(n / CELLS, CELLS, k, hi);
  }

  /** The source a number is compiled to pushes just that. */
  lemma NumberPushes(token: seq<Byte>, radix: nat)
    ensures
      match NumberLeaves(token, radix)
      case None => Numeral(token, radix) == None
      case Some(cells) =>
        && 1 <= |cells| <= 2
        && Numeral(token, radix) == Some(if |cells| == 1 then [Push(cells[0])] else [Push(cells[0]), Push(cells[1])])
  {
    hide Wrap2, NumberInput.Meaning;
    match NumberInput.Meaning(token, radix) {
      case NotANumber =>
      case Character(code) =>
      case Integer(n, double) => Halves(n);
    }
  }

  /** A double is compiled with its low cell under its high one: together they are the number. */
  lemma DoublePushes(token: seq<Byte>, radix: nat, n: int)
    requires NumberInput.Meaning(token, radix) == NumberInput.Integer(n, true)
    ensures
      var items := Numeral(token, radix);
      && items.Some? && |items.value| == 2 && items.value[0].Push? && items.value[1].Push?
      && Double(W64, items.value[0].n, items.value[1].n) == Wrap2(W64, n)
  {
    hide Wrap2, NumberInput.Meaning;
    DivMod(Wrap2(W64, n), W64.Base());
  }

  /** Compiling and executing is interpreting: if the names have a source, what it does to the data
      stack is what they do one by one. */
  lemma {:induction false} CompiledIsInterpreted(b: Book, e: Effect, radix: nat, tokens: seq<seq<Byte>>, ds: seq<int>)
    requires |b.sources| == |b.words| && Executable(b, tokens) && Source(b.words, radix, tokens).Some?
    ensures MeaningfulItems(b, |b.words|, Source(b.words, radix, tokens).value)
    ensures EvalItems(b, e, |b.words|, Source(b.words, radix, tokens).value, ds) == Interpreted(b, e, radix, tokens, ds)
    decreases |tokens|
  {
    hide Numeral, NumberLeaves, Meaningful, Newest;
    if tokens == [] {
    } else {
      var x, rest := |b.words|, Source(b.words, radix, tokens[1..]).value;
      RestExecutable(b, tokens);
      match Newest(b.words, tokens[0]) {
        case Some(k) =>
          NewestIs(b.words, tokens[0]);
          WordFirst(b, e, k, rest, ds);
          match Eval(b, e, k, ds) {
            case None => CompiledIsInterpreted(b, e, radix, tokens[1..], ds);
            case Some(left) => CompiledIsInterpreted(b, e, radix, tokens[1..], left);
          }
        case None =>
          NumberPushes(tokens[0], radix);
          var cells := NumberLeaves(tokens[0], radix).value;
          CompiledIsInterpreted(b, e, radix, tokens[1..], ds + cells);
          PushesFirst(b, e, cells, rest, ds);
      }
    }
  }

  lemma RestExecutable(b: Book, tokens: seq<seq<Byte>>)
    requires |b.sources| == |b.words| && Executable(b, tokens) && tokens != []
    ensures Executable(b, tokens[1..])
    ensures Newest(b.words, tokens[0]).Some? ==> Meaningful(b, Newest(b.words, tokens[0]).value)
  {
    hide Newest, Meaningful;
    var r := tokens[1..];
    forall i | 0 <= i < |r| ensures Newest(b.words, r[i]).Some? ==> Meaningful(b, Newest(b.words, r[i]).value) {
      assert r[i] == tokens[i + 1];
    }
  }

  lemma WordFirst(b: Book, e: Effect, k: nat, rest: seq<Item>, ds: seq<int>)
    requires |b.sources| == |b.words| && k < |b.words| && Meaningful(b, k)
    ensures
      var items := [Call(k)] + rest;
      && (MeaningfulItems(b, |b.words|, items) <==> MeaningfulItems(b, |b.words|, rest))
      && (MeaningfulItems(b, |b.words|, rest) ==>
           EvalItems(b, e, |b.words|, items, ds) ==
           match Eval(b, e, k, ds)
           case None => None
           case Some(left) => EvalItems(b, e, |b.words|, rest, left))
  {
    assert ([Call(k)] + rest)[1..] == rest;
  }

  lemma PushFirst(b: Book, e: Effect, n: int, rest: seq<Item>, ds: seq<int>)
    requires |b.sources| == |b.words| && MeaningfulItems(b, |b.words|, rest)
    ensures
      var items := [Push(n)] + rest;
      MeaningfulItems(b, |b.words|, items) && EvalItems(b, e, |b.words|, items, ds) == EvalItems(b, e, |b.words|, rest, ds + [n])
  {
    assert ([Push(n)] + rest)[1..] == rest;
  }

  lemma PushesFirst(b: Book, e: Effect, cells: seq<int>, rest: seq<Item>, ds: seq<int>)
    requires |b.sources| == |b.words| && MeaningfulItems(b, |b.words|, rest) && 1 <= |cells| <= 2
    ensures
      var items := (if |cells| == 1 then [Push(cells[0])] else [Push(cells[0]), Push(cells[1])]) + rest;
      MeaningfulItems(b, |b.words|, items) && EvalItems(b, e, |b.words|, items, ds) == EvalItems(b, e, |b.words|, rest, ds + cells)
  {
    if |cells| == 1 {
      PushFirst(b, e, cells[0], rest, ds);
      assert ds + cells == ds + [cells[0]];
    } else {
      PushFirst(b, e, cells[1], rest, ds + [cells[0]]);
      PushFirst(b, e, cells[0], [Push(cells[1])] + rest, ds);
      assert [Push(cells[0]), Push(cells[1])] + rest == [Push(cells[0])] + ([Push(cells[1])] + rest);
      assert ds + cells == ds + [cells[0]] + [cells[1]];
    }
  }
}
