/** Laws of structured programs, said of whole stacks and apart from how the machine keeps its
    loop control: what a literal leaves, which way a flag decides, how often a loop turns and
    what its body finds on the return stack. */
module CountedLoops {
  import opened VirtualMachine
  import opened Options
  import opened ControlFlow
  import opened StructuredSemantics

  /** Started with st, the program ends with o. */
  ghost predicate Ends(p: Program, words: Words, st: Stacks, o: Outcome) {
    o != Unfinished && exists fuel: nat :: Eval(p, words, st, fuel) == o
  }

  // ---- fuel that is enough stays enough ---------------------------------------------------

  lemma {:induction false} MoreFuel(p: Program, words: Words, st: Stacks, fuel: nat, more: nat)
    requires fuel <= more && Eval(p, words, st, fuel) != Unfinished
    ensures Eval(p, words, st, more) == Eval(p, words, st, fuel)
    decreases fuel, p, 1
  {
    match p
    case Nothing =>
    case Word(_) =>
    case Literal(_) =>
    case Then(a, b) =>
      MoreFuel(a, words, st, fuel, more);
      var o := Eval(a, words, st, fuel);
      if o.Normal? {
        MoreFuel(b, words, o.st, fuel, more);
      }
    case If(yes) =>
      if st.s != [] && st.tos != 0 {
        MoreFuel(yes, words, st.Pop(), fuel, more);
      }
    case IfElse(yes, no) =>
      if st.s != [] {
        MoreFuel(if st.tos != 0 then yes else no, words, st.Pop(), fuel, more);
      }
    case BeginUntil(_) => UntilMoreFuel(p, words, st, fuel, more);
    case BeginAgain(_) => AgainMoreFuel(p, words, st, fuel, more);
    case BeginWhileRepeat(_, _) => WhileMoreFuel(p, words, st, fuel, more);
    case DoLoop(question, _) =>
      if |st.s| >= 2 && !(question && st.tos == st.s[|st.s| - 1]) {
        LoopMoreFuel(p, words, st.EnterLoop(), fuel, more);
      }
    case Leave =>
    case QLeave =>
  }

  lemma {:induction false} UntilMoreFuel(p: Program, words: Words, st: Stacks, fuel: nat, more: nat)
    requires p.BeginUntil? && fuel <= more && EvalUntil(p, words, st, fuel) != Unfinished
    ensures EvalUntil(p, words, st, more) == EvalUntil(p, words, st, fuel)
    decreases fuel, p, 0
  {
    MoreFuel(p.body, words, st, fuel, more);
    var o := Eval(p.body, words, st, fuel);
    if o.Normal? && o.st.s != [] && o.st.tos == 0 {
      UntilMoreFuel(p, words, o.st.Pop(), fuel - 1, more - 1);
    }
  }

  lemma {:induction false} AgainMoreFuel(p: Program, words: Words, st: Stacks, fuel: nat, more: nat)
    requires p.BeginAgain? && fuel <= more && EvalAgain(p, words, st, fuel) != Unfinished
    ensures EvalAgain(p, words, st, more) == EvalAgain(p, words, st, fuel)
    decreases fuel, p, 0
  {
    MoreFuel(p.body, words, st, fuel, more);
    var o := Eval(p.body, words, st, fuel);
    if o.Normal? {
      AgainMoreFuel(p, words, o.st, fuel - 1, more - 1);
    }
  }

  lemma {:induction false} WhileMoreFuel(p: Program, words: Words, st: Stacks, fuel: nat, more: nat)
    requires p.BeginWhileRepeat? && fuel <= more && EvalWhile(p, words, st, fuel) != Unfinished
    ensures EvalWhile(p, words, st, more) == EvalWhile(p, words, st, fuel)
    decreases fuel, p, 0
  {
    MoreFuel(p.test, words, st, fuel, more);
    var o := Eval(p.test, words, st, fuel);
    if o.Normal? && o.st.s != [] && o.st.tos != 0 {
      MoreFuel(p.body, words, o.st.Pop(), fuel, more);
      var o2 := Eval(p.body, words, o.st.Pop(), fuel);
      if o2.Normal? {
        WhileMoreFuel(p, words, o2.st, fuel - 1, more - 1);
      }
    }
  }

  lemma {:induction false} LoopMoreFuel(p: Program, words: Words, st: Stacks, fuel: nat, more: nat)
    requires p.DoLoop? && fuel <= more && EvalLoop(p, words, st, fuel) != Unfinished
    ensures EvalLoop(p, words, st, more) == EvalLoop(p, words, st, fuel)
    decreases fuel, p, 0
  {
    MoreFuel(p.body, words, st, fuel, more);
    var o := Eval(p.body, words, st, fuel);
    if o.Normal? && |o.st.r| >= 2 && !o.st.Count().AtLimit() {
      LoopMoreFuel(p, words, o.st.Count(), fuel - 1, more - 1);
    }
  }

  /** A program ends in one way only. */
  lemma EndsOnce(p: Program, words: Words, st: Stacks, o: Outcome, o': Outcome)
    requires Ends(p, words, st, o) && Ends(p, words, st, o')
    ensures o == o'
  {
    var fuel: nat :| Eval(p, words, st, fuel) == o;
    var fuel': nat :| Eval(p, words, st, fuel') == o';
    if fuel <= fuel' {
      MoreFuel(p, words, st, fuel, fuel');
    } else {
      MoreFuel(p, words, st, fuel', fuel);
    }
  }

  /** Fuel for a program that ends, and no less than wanted. */
  lemma FuelFor(p: Program, words: Words, st: Stacks, o: Outcome, atLeast: nat) returns (fuel: nat)
    requires Ends(p, words, st, o)
    ensures atLeast <= fuel && forall more: nat :: fuel <= more ==> Eval(p, words, st, more) == o
  {
    var enough: nat :| Eval(p, words, st, enough) == o;
    fuel := enough + atLeast;
    forall more: nat | fuel <= more ensures Eval(p, words, st, more) == o {
      MoreFuel(p, words, st, enough, more);
    }
  }

  // ---- literals and choices -----------------------------------------------------------------

  lemma Literals(words: Words, n: int, s: seq<int>, x: int, r: seq<int>)
    ensures Ends(Literal(n), words, Stacks(s, x, r), Normal(Stacks(s + [x], n, r)))
  {
    assert Eval(Literal(n), words, Stacks(s, x, r), 0) == Normal(Stacks(s + [x], n, r));
  }

  /** A flag chooses the first part unless it is zero, and is gone by then. */
  lemma Choices(words: Words, yes: Program, no: Program, s: seq<int>, x: int, flag: int, r: seq<int>, o: Outcome)
    ensures Ends(IfElse(yes, no), words, Stacks(s + [x], flag, r), o)
       <==> Ends(if flag != 0 then yes else no, words, Stacks(s, x, r), o)
    ensures Ends(If(yes), words, Stacks(s + [x], flag, r), o)
       <==> if flag != 0 then Ends(yes, words, Stacks(s, x, r), o) else o == Normal(Stacks(s, x, r))
  {
    hide Ends;
    var st, rest := Stacks(s + [x], flag, r), Stacks(s, x, r);
    assert st.Pop() == rest;
    SameEnds(IfElse(yes, no), if flag != 0 then yes else no, words, st, rest, o);
    SameEnds(If(yes), if flag != 0 then yes else Nothing, words, st, rest, o);
    NothingEnds(words, rest, o);
  }

  lemma SameEnds(p: Program, q: Program, words: Words, st: Stacks, st': Stacks, o: Outcome)
    requires forall fuel: nat :: Eval(p, words, st, fuel) == Eval(q, words, st', fuel)
    ensures Ends(p, words, st, o) <==> Ends(q, words, st', o)
  {}

  lemma NothingEnds(words: Words, st: Stacks, o: Outcome)
    ensures Ends(Nothing, words, st, o) <==> o == Normal(st)
  {
    assert Eval(Nothing, words, st, 0) == Normal(st);
  }

  /** One program after another: the second starts with what the first leaves. */
  lemma Sequences(words: Words, a: Program, b: Program, st: Stacks, between: Stacks, o: Outcome)
    requires Ends(a, words, st, Normal(between))
    ensures Ends(Then(a, b), words, st, o) <==> Ends(b, words, between, o)
  {
    if Ends(b, words, between, o) {
      var enough := FuelFor(b, words, between, o, 0);
      var fuel := FuelFor(a, words, st, Normal(between), enough);
      assert Eval(Then(a, b), words, st, fuel) == o;
    }
    if Ends(Then(a, b), words, st, o) {
      var enough := FuelFor(Then(a, b), words, st, o, 0);
      var fuel := FuelFor(a, words, st, Normal(between), enough);
      assert Eval(Then(a, b), words, st, fuel) == Eval(b, words, between, fuel);
    }
  }

  // ---- BEGIN loops ----------------------------------------------------------------------------

  /** st with a flag on top. */
  function Flagged(st: Stacks, flag: int): Stacks {
    Stacks(st.s + [st.tos], flag, st.r)
  }

  /** BEGIN UNTIL: t[i] are the stacks between turns; the body's flag is zero until the last. */
  lemma {:induction false} UntilTurns(words: Words, body: Program, t: seq<Stacks>, flags: seq<int>)
    requires |t| == |flags| + 1 && |flags| > 0
    requires forall i :: 0 <= i < |flags| ==> Ends(body, words, t[i], Normal(Flagged(t[i + 1], flags[i])))
    requires forall i :: 0 <= i < |flags| ==> (flags[i] != 0 <==> i == |flags| - 1)
    ensures Ends(BeginUntil(body), words, t[0], Normal(t[|flags|]))
    decreases |flags|
  {
    hide Eval;
    var o := Normal(t[|flags|]);
    assert t[1] == Flagged(t[1], flags[0]).Pop();
    if |flags| == 1 {
      var fuel := FuelFor(body, words, t[0], Normal(Flagged(t[1], flags[0])), 1);
      UntilOnce(words, body, t[0], fuel);
      assert Eval(BeginUntil(body), words, t[0], fuel) == o;
    } else {
      UntilTurns(words, body, t[1..], flags[1..]);
      var rest := FuelFor(BeginUntil(body), words, t[1], o, 0);
      var fuel := FuelFor(body, words, t[0], Normal(Flagged(t[1], flags[0])), rest + 1);
      UntilOnce(words, body, t[0], fuel);
      UntilIs(words, body, t[1], fuel - 1);
      assert Eval(BeginUntil(body), words, t[0], fuel) == o;
    }
  }

  lemma UntilIs(words: Words, body: Program, st: Stacks, fuel: nat)
    ensures Eval(BeginUntil(body), words, st, fuel) == EvalUntil(BeginUntil(body), words, st, fuel)
  {}

  lemma UntilOnce(words: Words, body: Program, st: Stacks, fuel: nat)
    requires fuel > 0
    ensures
      var o := Eval(body, words, st, fuel);
      Eval(BeginUntil(body), words, st, fuel) ==
        if !o.Normal? then o
        else if o.st.s == [] then Faulted
        else if o.st.tos != 0 then Normal(o.st.Pop())
        else EvalUntil(BeginUntil(body), words, o.st.Pop(), fuel - 1)
  {}

  /** BEGIN AGAIN: only a body that does not end normally ends it, and then as the body did. */
  lemma {:induction false} AgainTurns(words: Words, body: Program, t: seq<Stacks>, o: Outcome)
    requires t != [] && !o.Normal? && Ends(body, words, t[|t| - 1], o)
    requires forall i :: 0 <= i < |t| - 1 ==> Ends(body, words, t[i], Normal(t[i + 1]))
    ensures Ends(BeginAgain(body), words, t[0], o)
    decreases |t|
  {
    hide Eval;
    if |t| == 1 {
      var fuel := FuelFor(body, words, t[0], o, 1);
      AgainOnce(words, body, t[0], fuel);
      assert Eval(BeginAgain(body), words, t[0], fuel) == o;
    } else {
      AgainTurns(words, body, t[1..], o);
      var rest := FuelFor(BeginAgain(body), words, t[1], o, 0);
      var fuel := FuelFor(body, words, t[0], Normal(t[1]), rest + 1);
      AgainOnce(words, body, t[0], fuel);
      assert Eval(BeginAgain(body), words, t[0], fuel) == o;
    }
  }

  lemma AgainOnce(words: Words, body: Program, st: Stacks, fuel: nat)
    requires fuel > 0
    ensures
      var o := Eval(body, words, st, fuel);
      Eval(BeginAgain(body), words, st, fuel) == if !o.Normal? then o else Eval(BeginAgain(body), words, o.st, fuel - 1)
  {}

  /** BEGIN WHILE REPEAT: t[i] are the stacks before each test, u[i] after it; the test's flag is
      zero at the last, and only there. */
  lemma {:induction false} WhileTurns(words: Words, test: Program, body: Program, t: seq<Stacks>, u: seq<Stacks>, flags: seq<int>)
    requires |t| == |u| == |flags| > 0
    requires forall i :: 0 <= i < |t| ==> Ends(test, words, t[i], Normal(Flagged(u[i], flags[i])))
    requires forall i :: 0 <= i < |t| ==> (flags[i] == 0 <==> i == |t| - 1)
    requires forall i :: 0 <= i < |t| - 1 ==> Ends(body, words, u[i], Normal(t[i + 1]))
    ensures Ends(BeginWhileRepeat(test, body), words, t[0], Normal(u[|t| - 1]))
    decreases |t|
  {
    hide Eval;
    var o := Normal(u[|t| - 1]);
    assert u[0] == Flagged(u[0], flags[0]).Pop();
    if |t| == 1 {
      var fuel := FuelFor(test, words, t[0], Normal(Flagged(u[0], flags[0])), 1);
      WhileOnce(words, test, body, t[0], fuel);
      assert Eval(BeginWhileRepeat(test, body), words, t[0], fuel) == o;
    } else {
      WhileTurns(words, test, body, t[1..], u[1..], flags[1..]);
      var rest := FuelFor(BeginWhileRepeat(test, body), words, t[1], o, 0);
      var more := FuelFor(body, words, u[0], Normal(t[1]), rest + 1);
      var fuel := FuelFor(test, words, t[0], Normal(Flagged(u[0], flags[0])), more);
      WhileOnce(words, test, body, t[0], fuel);
      WhileIs(words, test, body, t[1], fuel - 1);
      assert Eval(BeginWhileRepeat(test, body), words, t[0], fuel) == o;
    }
  }

  lemma WhileIs(words: Words, test: Program, body: Program, st: Stacks, fuel: nat)
    ensures Eval(BeginWhileRepeat(test, body), words, st, fuel) == EvalWhile(BeginWhileRepeat(test, body), words, st, fuel)
  {}

  lemma WhileOnce(words: Words, test: Program, body: Program, st: Stacks, fuel: nat)
    requires fuel > 0
    ensures
      var o := Eval(test, words, st, fuel);
      Eval(BeginWhileRepeat(test, body), words, st, fuel) ==
        if !o.Normal? then o
        else if o.st.s == [] then Faulted
        else if o.st.tos == 0 then Normal(o.st.Pop())
        else
          var o2 := Eval(body, words, o.st.Pop(), fuel);
          if !o2.Normal? then o2 else EvalWhile(BeginWhileRepeat(test, body), words, o2.st, fuel - 1)
  {}

  // ---- DO loops -------------------------------------------------------------------------------

  /** The data stack between two turns. */
  datatype Data = Data(s: seq<int>, tos: int)

  function With(d: Data, r: seq<int>): Stacks {
    Stacks(d.s, d.tos, r)
  }

  /** The loop runs once for each index from the first up to one below the limit: turn i finds
      limit and index on the return stack and takes the data from t[i] to t[i + 1]. */
  ghost predicate Turns(words: Words, body: Program, t: seq<Data>, r: seq<int>, index: int, limit: int) {
    forall i :: 0 <= i < |t| - 1 ==>
      Ends(body, words, With(t[i], r + [limit, index + i]), Normal(With(t[i + 1], r + [limit, index + i])))
  }

  /** DO with limit and index: exactly limit - index turns, and both gone afterwards. */
  lemma CountedLoop(words: Words, question: bool, body: Program, t: seq<Data>, r: seq<int>, index: int, limit: int)
    requires index < limit && |t| == limit - index + 1 && Turns(words, body, t, r, index, limit)
    ensures Ends(DoLoop(question, body), words, Stacks(t[0].s + [t[0].tos, limit], index, r), Normal(With(t[limit - index], r)))
  {
    var fuel := LoopTurns(words, question, body, t, r, index, limit);
    EnteringLoop(words, question, body, t[0], r, index, limit, fuel);
    assert Eval(DoLoop(question, body), words, Stacks(t[0].s + [t[0].tos, limit], index, r), fuel) == Normal(With(t[limit - index], r));
  }

  /** LEAVE in some turn before the limit is reached: the loop ends there, with the return stack
      as the body left it. */
  lemma LeftLoop(words: Words, question: bool, body: Program, t: seq<Data>, r: seq<int>, index: int, limit: int, st: Stacks)
    requires t != [] && Turns(words, body, t, r, index, limit)
    requires index + |t| - 1 < limit || (limit <= index && !(question && limit == index))
    requires Ends(body, words, With(t[|t| - 1], r + [limit, index + |t| - 1]), Left(st))
    ensures Ends(DoLoop(question, body), words, Stacks(t[0].s + [t[0].tos, limit], index, r), Normal(st))
  {
    var fuel := LoopLeft(words, question, body, t, r, index, limit, st);
    EnteringLoop(words, question, body, t[0], r, index, limit, fuel);
    assert Eval(DoLoop(question, body), words, Stacks(t[0].s + [t[0].tos, limit], index, r), fuel) == Normal(st);
  }

  /** ?DO with equal limit and index does nothing. */
  lemma NoTurns(words: Words, body: Program, s: seq<int>, x: int, n: int, r: seq<int>)
    ensures Ends(DoLoop(true, body), words, Stacks(s + [x, n], n, r), Normal(Stacks(s, x, r)))
  {
    assert (s + [x, n])[..|s|] == s;
    assert Eval(DoLoop(true, body), words, Stacks(s + [x, n], n, r), 0) == Normal(Stacks(s, x, r));
  }

  /** LEAVE gives up limit and index, ?LEAVE if its flag is not zero. */
  lemma Leaves(words: Words, s: seq<int>, x: int, flag: int, r: seq<int>, limit: int, index: int)
    ensures Ends(Leave, words, Stacks(s, x, r + [limit, index]), Left(Stacks(s, x, r)))
    ensures Ends(QLeave, words, Stacks(s + [x], flag, r + [limit, index]),
                 if flag != 0 then Left(Stacks(s, x, r)) else Normal(Stacks(s, x, r + [limit, index])))
  {
    assert (r + [limit, index])[..|r|] == r;
    assert Eval(Leave, words, Stacks(s, x, r + [limit, index]), 0) == Left(Stacks(s, x, r));
    assert Eval(QLeave, words, Stacks(s + [x], flag, r + [limit, index]), 0)
        == if flag != 0 then Left(Stacks(s, x, r)) else Normal(Stacks(s, x, r + [limit, index]));
  }

  lemma EnteringLoop(words: Words, question: bool, body: Program, d: Data, r: seq<int>, index: int, limit: int, fuel: nat)
    requires !(question && limit == index)
    ensures Eval(DoLoop(question, body), words, Stacks(d.s + [d.tos, limit], index, r), fuel)
         == EvalLoop(DoLoop(question, body), words, With(d, r + [limit, index]), fuel)
  {
    var st := Stacks(d.s + [d.tos, limit], index, r);
    assert st.s[..|st.s| - 2] == d.s;
    assert st.EnterLoop() == With(d, r + [limit, index]);
  }

  /** One turn of the loop, from the index to the next. */
  lemma LoopOnce(words: Words, question: bool, body: Program, d: Data, d': Data, r: seq<int>, index: int, limit: int, fuel: nat)
    requires fuel > 0 && Eval(body, words, With(d, r + [limit, index]), fuel) == Normal(With(d', r + [limit, index]))
    ensures EvalLoop(DoLoop(question, body), words, With(d, r + [limit, index]), fuel) ==
      if index + 1 == limit then Normal(With(d', r))
      else EvalLoop(DoLoop(question, body), words, With(d', r + [limit, index + 1]), fuel - 1)
  {
    var st := With(d', r + [limit, index]);
    assert st.Count() == With(d', r + [limit, index + 1]);
    assert (r + [limit, index + 1])[..|r|] == r;
  }

  lemma RestTurns(words: Words, body: Program, t: seq<Data>, r: seq<int>, index: int, limit: int)
    requires |t| >= 2 && Turns(words, body, t, r, index, limit)
    ensures Turns(words, body, t[1..], r, index + 1, limit)
    ensures Ends(body, words, With(t[0], r + [limit, index]), Normal(With(t[1], r + [limit, index])))
  {
    hide Ends;
    forall i | 0 <= i < |t[1..]| - 1
      ensures Ends(body, words, With(t[1..][i], r + [limit, index + 1 + i]), Normal(With(t[1..][i + 1], r + [limit, index + 1 + i])))
    {
      var j := i + 1;
      assert t[1..][i] == t[j] && t[1..][i + 1] == t[j + 1];
      assert Ends(body, words, With(t[j], r + [limit, index + j]), Normal(With(t[j + 1], r + [limit, index + j])));
    }
    assert Ends(body, words, With(t[0], r + [limit, index + 0]), Normal(With(t[0 + 1], r + [limit, index + 0])));
  }

  lemma {:induction false} LoopTurns(words: Words, question: bool, body: Program, t: seq<Data>, r: seq<int>, index: int, limit: int)
    returns (fuel: nat)
    requires index < limit && |t| == limit - index + 1 && Turns(words, body, t, r, index, limit)
    ensures forall more: nat :: fuel <= more ==>
      EvalLoop(DoLoop(question, body), words, With(t[0], r + [limit, index]), more) == Normal(With(t[limit - index], r))
    decreases limit - index
  {
    hide Eval, EvalLoop, Turns, Ends;
    RestTurns(words, body, t, r, index, limit);
    var rest: nat := 0;
    if index + 1 < limit {
      rest := LoopTurns(words, question, body, t[1..], r, index + 1, limit);
    }
    fuel := FuelFor(body, words, With(t[0], r + [limit, index]), Normal(With(t[1], r + [limit, index])), rest + 1);
    forall more: nat | fuel <= more
      ensures EvalLoop(DoLoop(question, body), words, With(t[0], r + [limit, index]), more) == Normal(With(t[limit - index], r))
    {
      LoopOnce(words, question, body, t[0], t[1], r, index, limit, more);
    }
  }

  lemma {:induction false} LoopLeft(words: Words, question: bool, body: Program, t: seq<Data>, r: seq<int>, index: int, limit: int, st: Stacks)
    returns (fuel: nat)
    requires t != [] && Turns(words, body, t, r, index, limit)
    requires index + |t| - 1 < limit || limit <= index
    requires Ends(body, words, With(t[|t| - 1], r + [limit, index + |t| - 1]), Left(st))
    ensures forall more: nat :: fuel <= more ==>
      EvalLoop(DoLoop(question, body), words, With(t[0], r + [limit, index]), more) == Normal(st)
    decreases |t|
  {
    hide Eval, EvalLoop, Turns, Ends;
    if |t| == 1 {
      fuel := FuelFor(body, words, With(t[0], r + [limit, index]), Left(st), 1);
      forall more: nat | fuel <= more
        ensures EvalLoop(DoLoop(question, body), words, With(t[0], r + [limit, index]), more) == Normal(st)
      {
        LeavingOnce(words, question, body, With(t[0], r + [limit, index]), st, more);
      }
    } else {
      RestTurns(words, body, t, r, index, limit);
      var rest := LoopLeft(words, question, body, t[1..], r, index + 1, limit, st);
      fuel := FuelFor(body, words, With(t[0], r + [limit, index]), Normal(With(t[1], r + [limit, index])), rest + 1);
      forall more: nat | fuel <= more
        ensures EvalLoop(DoLoop(question, body), words, With(t[0], r + [limit, index]), more) == Normal(st)
      {
        LoopOnce(words, question, body, t[0], t[1], r, index, limit, more);
      }
    }
  }

  lemma LeavingOnce(words: Words, question: bool, body: Program, st: Stacks, st': Stacks, fuel: nat)
    requires fuel > 0 && Eval(body, words, st, fuel) == Left(st')
    ensures EvalLoop(DoLoop(question, body), words, st, fuel) == Normal(st')
  {}

  /** On the machine: code of a counted loop, started at its first cell with limit and index on
      the stack, gets to the cell after its last, having turned limit - index times. */
  lemma CountedOnMachine(m: Memory, words: Words, question: bool, body: Program, a: int, d: int, t: seq<Data>, r: seq<int>, index: int, limit: int)
    requires index < limit && |t| == limit - index + 1 && Turns(words, body, t, r, index, limit)
    requires
      var p := DoLoop(question, body);
      WellFormed(p, false) && Installed(m, a, Code(p, a, d))
    ensures
      var p := DoLoop(question, body);
      exists n: nat ::
        Stretch(m, words, p, a, d).Run(Running(a, Stacks(t[0].s + [t[0].tos, limit], index, r)), n)
        == Running(After(p, a, d), With(t[limit - index], r))
  {
    hide Eval, Code, Turns;
    var p, st, st' := DoLoop(question, body), Stacks(t[0].s + [t[0].tos, limit], index, r), With(t[limit - index], r);
    CountedLoop(words, question, body, t, r, index, limit);
    assert exists fuel: nat :: Eval(p, words, st, fuel) == Normal(st');
    CompilerCorrect(m, words, p, a, d, st, st');
  }
}
