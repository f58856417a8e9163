/** From the text of a definition to its execution: names are parsed out of the input buffer,
    compiled, and the new word run. */
module DefinitionText {
  import opened Characters
  import opened Dictionary
  import opened Options
  import InputParser
  import opened ThreadedCode
  import opened Interpretation

  /** The name that ends a definition. */
  const SEMICOLON: seq<Byte> := Ascii(";")

  datatype Body = Unfinished | Body(tokens: seq<seq<Byte>>, rest: seq<Byte>)

  /** The names up to the semicolon, and the text after it. */
  function Tokens(s: seq<Byte>): (b: Body)
    decreases |s|
  {
    if s == [] then Unfinished
    else
      var n := InputParser.Name(s);
      if n.name == [] then Unfinished
      else if n.name == SEMICOLON then Body([], n.rest)
      else
        match Tokens(n.rest)
        case Unfinished => Unfinished
        case Body(tokens, rest) => Body([n.name] + tokens, rest)
  }

  /** The text of written names, one after the other. */
  function Texts(names: seq<InputParser.Written>): seq<Byte> {
    if names == [] then [] else names[0].Text() + Texts(names[1..])
  }

  function NamesOf(names: seq<InputParser.Written>): seq<seq<Byte>> {
    if names == [] then [] else [names[0].name] + NamesOf(names[1..])
  }

  /** However names are written and spaced, up to a semicolon that stands by itself they are the
      tokens of the definition, and what comes after it is left. */
  lemma {:induction false} TokensOf(names: seq<InputParser.Written>, end: InputParser.Written, rest: seq<Byte>)
    requires forall i :: 0 <= i < |names| ==> names[i].Valid() && names[i].name != Ascii(";")
    requires end.Valid() && end.name == Ascii(";")
    ensures Tokens(Texts(names) + (end.Text() + rest)) == Body(NamesOf(names), rest)
  {
    hide InputParser.Name, Tokens;
    var after := end.Text() + rest;
    if names == [] {
      assert Texts(names) + after == after;
      InputParser.NameOf(end, rest);
      TokensFirst(after, end.name, rest);
    } else {
      var more := Texts(names[1..]) + after;
      assert Texts(names) + after == names[0].Text() + more;
      InputParser.NameOf(names[0], more);
      TokensFirst(names[0].Text() + more, names[0].name, more);
      TokensOf(names[1..], end, rest);
    }
  }

  lemma TokensFirst(s: seq<Byte>, name: seq<Byte>, rest: seq<Byte>)
    requires s != [] && name != [] && InputParser.Name(s) == InputParser.Named(name, rest)
    ensures Tokens(s) ==
      if name == SEMICOLON then Body([], rest)
      else
        match Tokens(rest)
        case Unfinished => Unfinished
        case Body(tokens, after) => Body([name] + tokens, after)
  {}

  function Preceded(done: seq<seq<Byte>>, b: Body): Body {
    match b
    case Unfinished => Unfinished
    case Body(tokens, rest) => Body(done + tokens, rest)
  }

  lemma TokensStep(s: seq<Byte>, done: seq<seq<Byte>>)
    ensures
      var n := InputParser.Name(s);
      Preceded(done, Tokens(s)) ==
        if s == [] || n.name == [] then Unfinished
        else if n.name == SEMICOLON then Body(done, n.rest)
        else Preceded(done + [n.name], Tokens(n.rest))
  {
    var n := InputParser.Name(s);
    assert done + [] == done;
    if s != [] && n.name != [] && n.name != SEMICOLON && Tokens(n.rest).Body? {
      assert done + ([n.name] + Tokens(n.rest).tokens) == done + [n.name] + Tokens(n.rest).tokens;
    }
  }

  /** What is left of the input. */
  ghost function Left(input: InputParser.Input): seq<Byte>
    requires input.Valid()
    reads input, input.buffer
  {
    input.buffer[input.offset..input.length]
  }

  /** The names up to the semicolon, parsed one by one; the buffer is not changed. */
  method ReadTokens(input: InputParser.Input) returns (found: bool, tokens: seq<seq<Byte>>)
    requires input.Valid()
    modifies input, input.buffer
    ensures input.Valid() && input.length == old(input.length)
    ensures input.buffer[..input.length] == old(input.buffer[..input.length])
    ensures
      match Tokens(old(Left(input)))
      case Unfinished => !found
      case Body(all, rest) => found && tokens == all && Left(input) == rest
  {
    hide Tokens, Preceded, InputParser.Name;
    ghost var text := Left(input);
    tokens, found := [], false;
    FromStart(text);
    while input.offset < input.length
      invariant input.Valid() && input.length == old(input.length) && !found
      invariant input.buffer[..input.length] == old(input.buffer[..input.length])
      invariant Preceded(tokens, Tokens(Left(input))) == Tokens(text)
      decreases input.length - input.offset
    {
      TokensStep(Left(input), tokens);
      var start, len := input.ParseName();
      var name := input.buffer[start..start + len];
      if len == 0 {
        break;
      }
      if name == SEMICOLON {
        return true, tokens;
      }
      tokens := tokens + [name];
    }
    TokensStep(Left(input), tokens);
  }

  lemma FromStart(text: seq<Byte>)
    ensures Preceded([], Tokens(text)) == Tokens(text)
  {}

  /** What a definition makes of the book: a new word with the source its tokens have, or, for
      want of a meaning or of room, nothing but alignment. */
  ghost predicate Defines(b: Book, end: int, radix: nat, name: seq<Byte>, tokens: seq<seq<Byte>>, ok: bool, c: Book) {
    var data := Align(b.here);
    match Source(b.words, radix, tokens)
    case None => !ok && c.words == b.words && c.sources == b.sources && c.here == data
    case Some(items) =>
      var size := CELL * (|Encode(items)| + 1);
      && (ok <==> data + size < end)
      && if ok then
           c.words == b.words + [Word(name, Enter, false, data, size)] && c.sources == b.sources + [items] && c.here == data + size
         else c.words == b.words && c.sources == b.sources && c.here == data
  }

  /** The tokens of the definition in a text that starts with its name. */
  function Definition(s: seq<Byte>): Body {
    Tokens(InputParser.Name(s).rest)
  }

  /** Interprets the text of a definition after its colon.  When it fails, the rest of the input
      is dropped. */
  method DefineText(interpreter: Interpreter, input: InputParser.Input) returns (found: bool, ok: bool)
    requires interpreter.Valid() && input.Valid()
    modifies interpreter, interpreter.context, input, input.buffer
    ensures interpreter.Valid() && input.Valid() && Extends(old(interpreter.Contents()), interpreter.Contents())
    ensures found == Definition(old(Left(input))).Body?
    ensures !found ==> !ok && interpreter.Contents() == old(interpreter.Contents())
    ensures found ==>
      && Left(input) == (if ok then Definition(old(Left(input))).rest else [])
      && Defines(old(interpreter.Contents()), interpreter.context.end, interpreter.radix, InputParser.Name(old(Left(input))).name,
                 Definition(old(Left(input))).tokens, ok, interpreter.Contents())
  {
    hide Sound, InOrder, Source, Encode, Tokens, InputParser.Name;
    ok := false;
    ExtendsItself(interpreter.Contents());
    var start, len := input.ParseName();
    var name := input.buffer[start..start + len];
    var tokens;
    found, tokens := ReadTokens(input);
    if found {
      ok := interpreter.Define(name, tokens);
      if !ok {
        input.Reset();
      }
    }
  }

  lemma ExtendsItself(b: Book)
    ensures Extends(b, b)
  {}

  /** The source a text defines, with the words there are. */
  function TextSource(b: Book, radix: nat, s: seq<Byte>): Option<seq<Item>> {
    match Definition(s)
    case Unfinished => None
    case Body(tokens, _) => Source(b.words, radix, tokens)
  }

  lemma NewWord(b: Book, c: Book, e: Effect, items: seq<Item>, ds: seq<int>)
    requires |b.sources| == |b.words| && |c.sources| == |c.words| == |b.words| + 1 && Extends(b, c)
    requires c.words[|b.words|].code == Enter && c.sources[|b.words|] == items && MeaningfulItems(b, |b.words|, items)
    ensures Meaningful(c, |b.words|) && Eval(c, e, |b.words|, ds) == EvalItems(b, e, |b.words|, items, ds)
  {
    ItemsKept(b, c, e, |b.words|, items, ds);
  }

  lemma AsInterpreted(b: Book, e: Effect, radix: nat, s: seq<Byte>, ds: seq<int>)
    requires |b.sources| == |b.words|
    ensures
      var d := Definition(s);
      TextSource(b, radix, s).Some? ==>
        && d.Body?
        && (Executable(b, d.tokens) ==>
             && MeaningfulItems(b, |b.words|, TextSource(b, radix, s).value)
             && EvalItems(b, e, |b.words|, TextSource(b, radix, s).value, ds) == Interpreted(b, e, radix, d.tokens, ds))
  {
    hide Source, MeaningfulItems, EvalItems, Executable, Interpreted;
    var d := Definition(s);
    if d.Body? && Executable(b, d.tokens) && Source(b.words, radix, d.tokens).Some? {
      CompiledIsInterpreted(b, e, radix, d.tokens, ds);
    }
  }

  /** The text of a definition is interpreted and the new word executed: what it does to the data
      stack is what its names, as the text spells them, meant before; if they can all be executed,
      what interpreting them one by one would do. */
  method DefineAndExecute(interpreter: Interpreter, input: InputParser.Input, e: Effect, rs0: seq<int>, ds0: seq<int>)
    returns (found: bool, ok: bool, thrown: bool, rs: seq<int>, ds: seq<int>)
    requires interpreter.Valid() && input.Valid()
    requires
      var b := interpreter.Contents();
      match TextSource(b, interpreter.radix, Left(input))
      case None => true
      case Some(items) => MeaningfulItems(b, |b.words|, items)
    modifies interpreter, interpreter.context, input, input.buffer
    ensures interpreter.Valid() && input.Valid()
    ensures found == Definition(old(Left(input))).Body?
    ensures
      var b := old(interpreter.Contents());
      match TextSource(b, interpreter.radix, old(Left(input)))
      case None => !ok
      case Some(items) =>
        && (ok <==> Align(b.here) + CELL * (|Encode(items)| + 1) < interpreter.context.end)
        && (ok ==>
             match EvalItems(b, e, |b.words|, items, ds0)
             case None => thrown
             case Some(left) => !thrown && rs == rs0 && ds == left)
    ensures
      var b, d := old(interpreter.Contents()), Definition(old(Left(input)));
      ok ==>
        && |b.sources| == |b.words| && d.Body?
        && (Executable(b, d.tokens) ==>
             match Interpreted(b, e, interpreter.radix, d.tokens, ds0)
             case None => thrown
             case Some(left) => !thrown && rs == rs0 && ds == left)
  {
    hide InOrder, Source, Encode, Tokens, MeaningfulItems, EvalItems, InputParser.Name, Extends, Executable, Interpreted;
    ghost var b, text := interpreter.Contents(), Left(input);
    AsInterpreted(b, e, interpreter.radix, text, ds0);
    thrown, rs, ds := false, rs0, ds0;
    var index := |interpreter.context.words|;
    found, ok := DefineText(interpreter, input);
    if ok {
      NewWord(b, interpreter.Contents(), e, TextSource(b, interpreter.radix, text).value, ds0);
      thrown, rs, ds := interpreter.Execute(index, e, rs0, ds0);
    }
  }
}
