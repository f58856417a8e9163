/** What a structured program means, independently of any code, and the proof that the code
    the emitters lay down means the same to the virtual machine. */
module StructuredSemantics {
  import opened VirtualMachine
  import opened Options
  import opened ControlFlow

  /** Ran to its end; left the enclosing loop; faulted; or needs more loop iterations than
      it was allowed. */
  datatype Outcome = Normal(st: Stacks) | Left(st: Stacks) | Faulted | Unfinished

  /** Big-step meaning; fuel bounds the iterations of each loop. */
  function Eval(p: Program, words: Words, st: Stacks, fuel: nat): Outcome
    decreases fuel, p, 1
  {
    match p
    case Nothing => Normal(st)
    case Word(xt) =>
      (match words(xt, st)
       case None => Faulted
       case Some(st') => Normal(st'))
    case Literal(n) => Normal(st.Push(n))
    case Then(p1, p2) =>
      var o := Eval(p1, words, st, fuel);
      if o.Normal? then Eval(p2, words, o.st, fuel) else o
    case If(yes) =>
      if st.s == [] then Faulted
      else if st.tos != 0 then Eval(yes, words, st.Pop(), fuel)
      else Normal(st.Pop())
    case IfElse(yes, no) =>
      if st.s == [] then Faulted
      else if st.tos != 0 then Eval(yes, words, st.Pop(), fuel)
      else Eval(no, words, st.Pop(), fuel)
    case BeginUntil(_) => EvalUntil(p, words, st, fuel)
    case BeginAgain(_) => EvalAgain(p, words, st, fuel)
    case BeginWhileRepeat(_, _) => EvalWhile(p, words, st, fuel)
    case DoLoop(question, _) =>
      if |st.s| < 2 then Faulted
      else if question && st.tos == st.s[|st.s| - 1] then Normal(st.SkipLoop())
      else EvalLoop(p, words, st.EnterLoop(), fuel)
    case Leave =>
      if |st.r| < 2 then Faulted else Left(st.Unloop())
    case QLeave =>
      if st.s == [] then Faulted
      else if st.tos == 0 then Normal(st.Pop())
      else if |st.r| < 2 then Faulted
      else Left(st.Unloop().Pop())
  }

  function EvalUntil(p: Program, words: Words, st: Stacks, fuel: nat): Outcome
    requires p.BeginUntil?
    decreases fuel, p, 0
  {
    if fuel == 0 then Unfinished else
    var o := Eval(p.body, words, st, fuel);
    if !o.Normal? then o
    else if o.st.s == [] then Faulted
    else if o.st.tos != 0 then Normal(o.st.Pop())
    else EvalUntil(p, words, o.st.Pop(), fuel - 1)
  }

  function EvalAgain(p: Program, words: Words, st: Stacks, fuel: nat): Outcome
    requires p.BeginAgain?
    decreases fuel, p, 0
  {
    if fuel == 0 then Unfinished else
    var o := Eval(p.body, words, st, fuel);
    if !o.Normal? then o else EvalAgain(p, words, o.st, fuel - 1)
  }

  function EvalWhile(p: Program, words: Words, st: Stacks, fuel: nat): Outcome
    requires p.BeginWhileRepeat?
    decreases fuel, p, 0
  {
    if fuel == 0 then Unfinished else
    var o := Eval(p.test, words, st, fuel);
    if !o.Normal? then o
    else if o.st.s == [] then Faulted
    else if o.st.tos == 0 then Normal(o.st.Pop())
    else
      var o2 := Eval(p.body, words, o.st.Pop(), fuel);
      if !o2.Normal? then o2 else EvalWhile(p, words, o2.st, fuel - 1)
  }

  /** The body, then count, until the index meets the limit or the body leaves. */
  function EvalLoop(p: Program, words: Words, st: Stacks, fuel: nat): Outcome
    requires p.DoLoop?
    decreases fuel, p, 0
  {
    if fuel == 0 then Unfinished else
    var o := Eval(p.body, words, st, fuel);
    if o.Left? then Normal(o.st)
    else if !o.Normal? then o
    else if |o.st.r| < 2 then Faulted
    else if o.st.Count().AtLimit() then Normal(o.st.Count().Unloop())
    else EvalLoop(p, words, o.st.Count(), fuel - 1)
  }

  // ---- simulation -------------------------------------------------------------------

  /** A stretch of memory holding code, and the meaning of words: what stays fixed while the
      code runs. */
  datatype Setting = Setting(m: Memory, words: Words, lo: int, hi: int) {
    ghost function Run(c: Config, n: nat): Config {
      VirtualMachine.Run(m, words, lo, hi, c, n)
    }

    /** p's code is at a, inside the stretch, in the loop named by d. */
    ghost predicate Holds(p: Program, a: int, d: int) {
      lo <= a && a + |Code(p, a, d)| <= hi && Installed(m, a, Code(p, a, d))
    }

    /** From c, n turns do what the outcome says: arrive just after p's code, or where the
        loop named by d continues, or at a fault; or n turns are not enough to get out. */
    ghost predicate Does(c: Config, n: nat, o: Outcome, after: int, d: int, fuel: nat) {
      match o
      case Normal(st) => Run(c, n) == Running(after, st)
      case Left(st) => d in m && Run(c, n) == Running(d + m[d], st)
      case Faulted => Run(c, n) == Fault
      case Unfinished => fuel <= n && Inside(lo, hi, Run(c, n))
    }
  }

  /** Outcomes chain: n turns to a configuration, then what happens from there. */
  lemma Chain(s: Setting, c: Config, n: nat, c': Config, k: nat, o: Outcome, after: int, d: int, fuel: nat, fuel': nat)
    requires s.Run(c, n) == c' && fuel <= fuel' + n
    requires s.Does(c', k, o, after, d, fuel')
    ensures s.Does(c, n + k, o, after, d, fuel)
  {
    RunCompose(s.m, s.words, s.lo, s.hi, c, n, k);
  }

  lemma Compose(s: Setting, c: Config, n: nat, c': Config, k: nat, c'': Config)
    requires s.Run(c, n) == c' && s.Run(c', k) == c''
    ensures s.Run(c, n + k) == c''
  {
    RunCompose(s.m, s.words, s.lo, s.hi, c, n, k);
  }

  /** One turn from inside the stretch. */
  lemma OneTurn(s: Setting, ip: int, st: Stacks)
    requires s.lo <= ip < s.hi
    ensures s.Run(Running(ip, st), 1) == Step(s.m, s.words, ip, st)
  {
    var c := Step(s.m, s.words, ip, st);
    assert VirtualMachine.Run(s.m, s.words, s.lo, s.hi, c, 0) == c;
  }

  /** Where a program sits, and in which loop. */
  ghost predicate Placed(s: Setting, p: Program, a: int, d: int, inLoop: bool) {
    s.Holds(p, a, d) && WellFormed(p, inLoop) && (inLoop ==> d in s.m)
  }

  function After(p: Program, a: int, d: int): int {
    a + |Code(p, a, d)|
  }

  /** The two cells at k. */
  ghost predicate Cells(s: Setting, k: int, x: int, y: int) {
    s.lo <= k && k + 2 <= s.hi && k in s.m && s.m[k] == x && k + 1 in s.m && s.m[k + 1] == y
  }

  /** What the branch words do from cells k and k + 1. */
  function Branched(x: int, off: int, k: int, st: Stacks): Config {
    if x == X_0BRANCH then
      if st.s == [] then Fault else Running(if st.tos != 0 then k + 2 else k + 1 + off, st.Pop())
    else if x == X_LOOP then
      if |st.r| < 2 then Fault
      else if st.Count().AtLimit() then Running(k + 2, st.Count().Unloop())
      else Running(k + 1 + off, st.Count())
    else Running(k + 1 + off, st)
  }

  lemma BranchTurn(s: Setting, k: int, x: int, off: int, st: Stacks)
    requires Cells(s, k, x, off) && (x == X_0BRANCH || x == X_BRANCH || x == X_LOOP)
    ensures s.Run(Running(k, st), 1) == Branched(x, off, k, st)
  {
    OneTurn(s, k, st);
  }

  /** A run that arrives at a branch, and takes it. */
  lemma ThenBranch(s: Setting, c: Config, n: nat, k: int, x: int, off: int, st: Stacks)
    requires Cells(s, k, x, off) && (x == X_0BRANCH || x == X_BRANCH || x == X_LOOP)
    requires s.Run(c, n) == Running(k, st)
    ensures s.Run(c, n + 1) == Branched(x, off, k, st)
  {
    BranchTurn(s, k, x, off, st);
    Compose(s, c, n, Running(k, st), 1, Branched(x, off, k, st));
  }

  // Where the parts of each construct sit, and what its own cells hold.

  lemma FourInstalled(m: Memory, a: int, c1: seq<int>, c2: seq<int>, c3: seq<int>, c4: seq<int>)
    requires Installed(m, a, c1 + c2 + c3 + c4)
    ensures Installed(m, a, c1) && Installed(m, a + |c1|, c2)
    ensures Installed(m, a + |c1| + |c2|, c3) && Installed(m, a + |c1| + |c2| + |c3|, c4)
  {
    hide Installed;
    InstalledConcat(m, a, c1 + c2 + c3, c4);
    InstalledConcat(m, a, c1 + c2, c3);
    InstalledConcat(m, a, c1, c2);
  }

  lemma PairInstalled(s: Setting, k: int, x: int, y: int)
    requires Installed(s.m, k, [x, y]) && s.lo <= k && k + 2 <= s.hi
    ensures Cells(s, k, x, y)
  {
    assert s.m[k] == [x, y][0] && s.m[k + 1] == [x, y][1];
  }

  lemma PartsOfThen(s: Setting, p: Program, a: int, d: int, inLoop: bool)
    requires Placed(s, p, a, d, inLoop) && p.Then?
    ensures Placed(s, p.first, a, d, inLoop)
    ensures Placed(s, p.second, After(p.first, a, d), d, inLoop)
    ensures After(p.second, After(p.first, a, d), d) == After(p, a, d)
  {
    InstalledConcat(s.m, a, Code(p.first, a, d), Code(p.second, After(p.first, a, d), d));
  }

  lemma PartsOfIf(s: Setting, p: Program, a: int, d: int, inLoop: bool)
    requires Placed(s, p, a, d, inLoop) && p.If?
    ensures Cells(s, a, X_0BRANCH, After(p, a, d) - (a + 1))
    ensures Placed(s, p.yes, a + 2, d, inLoop) && After(p.yes, a + 2, d) == After(p, a, d)
  {
    var c := Code(p.yes, a + 2, d);
    InstalledConcat(s.m, a, [X_0BRANCH, |c| + 1], c);
  }

  lemma PartsOfIfElse(s: Setting, p: Program, a: int, d: int, inLoop: bool)
    requires Placed(s, p, a, d, inLoop) && p.IfElse?
    ensures
      var b := After(p.yes, a + 2, d);
      && Cells(s, a, X_0BRANCH, b + 2 - (a + 1)) && Placed(s, p.yes, a + 2, d, inLoop)
      && Cells(s, b, X_BRANCH, After(p, a, d) - (b + 1))
      && Placed(s, p.no, b + 2, d, inLoop) && After(p.no, b + 2, d) == After(p, a, d)
  {
    hide Code, Installed, Cells, WellFormed;
    IfElseCode(p, a, d);
    IfElseFormed(p, inLoop);
    var c1 := Code(p.yes, a + 2, d);
    var c2 := Code(p.no, a + |c1| + 4, d);
    FourInstalled(s.m, a, [X_0BRANCH, |c1| + 3], c1, [X_BRANCH, |c2| + 1], c2);
    PairInstalled(s, a, X_0BRANCH, |c1| + 3);
    PairInstalled(s, a + 2 + |c1|, X_BRANCH, |c2| + 1);
  }

  lemma IfElseFormed(p: Program, inLoop: bool)
    requires p.IfElse? && WellFormed(p, inLoop)
    ensures WellFormed(p.yes, inLoop) && WellFormed(p.no, inLoop)
  {}

  lemma IfElseCode(p: Program, a: int, d: int)
    requires p.IfElse?
    ensures
      var c1 := Code(p.yes, a + 2, d);
      var c2 := Code(p.no, a + |c1| + 4, d);
      Code(p, a, d) == [X_0BRANCH, |c1| + 3] + c1 + [X_BRANCH, |c2| + 1] + c2
  {}

  lemma PartsOfBegin(s: Setting, p: Program, a: int, d: int, inLoop: bool)
    requires Placed(s, p, a, d, inLoop) && (p.BeginUntil? || p.BeginAgain?)
    ensures
      var b := After(p.body, a, d);
      && Placed(s, p.body, a, d, inLoop) && After(p, a, d) == b + 2
      && Cells(s, b, if p.BeginUntil? then X_0BRANCH else X_BRANCH, a - (b + 1))
  {
    var c := Code(p.body, a, d);
    InstalledConcat(s.m, a, c, [if p.BeginUntil? then X_0BRANCH else X_BRANCH, -(|c| + 1)]);
  }

  lemma PartsOfWhile(s: Setting, p: Program, a: int, d: int, inLoop: bool)
    requires Placed(s, p, a, d, inLoop) && p.BeginWhileRepeat?
    ensures
      var b := After(p.test, a, d);
      var e := After(p.body, b + 2, d);
      && Placed(s, p.test, a, d, inLoop) && Cells(s, b, X_0BRANCH, e + 2 - (b + 1))
      && Placed(s, p.body, b + 2, d, inLoop) && Cells(s, e, X_BRANCH, a - (e + 1))
      && After(p, a, d) == e + 2
  {
    hide Code, Installed, Cells, WellFormed;
    WhileCode(p, a, d);
    WhileFormed(p, inLoop);
    var c1 := Code(p.test, a, d);
    var c2 := Code(p.body, a + |c1| + 2, d);
    FourInstalled(s.m, a, c1, [X_0BRANCH, |c2| + 3], c2, [X_BRANCH, -(|c1| + |c2| + 3)]);
    PairInstalled(s, a + |c1|, X_0BRANCH, |c2| + 3);
    PairInstalled(s, a + |c1| + 2 + |c2|, X_BRANCH, -(|c1| + |c2| + 3));
  }

  lemma WhileFormed(p: Program, inLoop: bool)
    requires p.BeginWhileRepeat? && WellFormed(p, inLoop)
    ensures WellFormed(p.test, inLoop) && WellFormed(p.body, inLoop)
  {}

  lemma WhileCode(p: Program, a: int, d: int)
    requires p.BeginWhileRepeat?
    ensures
      var c1 := Code(p.test, a, d);
      var c2 := Code(p.body, a + |c1| + 2, d);
      Code(p, a, d) == c1 + [X_0BRANCH, |c2| + 3] + c2 + [X_BRANCH, -(|c1| + |c2| + 3)]
  {}

  lemma PartsOfDo(s: Setting, p: Program, a: int, d: int, inLoop: bool)
    requires Placed(s, p, a, d, inLoop) && p.DoLoop?
    ensures
      var e := After(p.body, a + 2, a + 1);
      && Cells(s, a, if p.question then X_QDO else X_DO, e + 2 - (a + 1))
      && Placed(s, p.body, a + 2, a + 1, true) && Cells(s, e, X_LOOP, a + 2 - (e + 1))
      && After(p, a, d) == e + 2
  {
    hide Code, Installed, Cells;
    DoCode(p, a, d);
    var c := Code(p.body, a + 2, a + 1);
    var h1, h2 := [if p.question then X_QDO else X_DO, |c| + 3], [X_LOOP, -(|c| + 1)];
    InstalledConcat(s.m, a, h1 + c, h2);
    InstalledConcat(s.m, a, h1, c);
    PairInstalled(s, a, h1[0], |c| + 3);
    PairInstalled(s, a + 2 + |c|, X_LOOP, -(|c| + 1));
    OperandInMemory(s.m, a, h1);
  }

  lemma OperandInMemory(m: Memory, a: int, c: seq<int>)
    requires Installed(m, a, c) && |c| >= 2
    ensures a + 1 in m
  {}

  lemma DoCode(p: Program, a: int, d: int)
    requires p.DoLoop?
    ensures
      var c := Code(p.body, a + 2, a + 1);
      Code(p, a, d) == [if p.question then X_QDO else X_DO, |c| + 3] + c + [X_LOOP, -(|c| + 1)]
  {}

  // Each construct's code does what the construct means.

  lemma SimulateThen(s: Setting, p: Program, a: int, d: int, inLoop: bool, st: Stacks, fuel: nat) returns (n: nat)
    requires Placed(s, p, a, d, inLoop) && p.Then?
    ensures s.Does(Running(a, st), n, Eval(p, s.words, st, fuel), After(p, a, d), d, fuel)
    ensures Eval(p, s.words, st, fuel).Left? ==> inLoop
    decreases fuel, p, 1
  {
    hide Code, Step;
    PartsOfThen(s, p, a, d, inLoop);
    n := Simulate(s, p.first, a, d, inLoop, st, fuel);
    var o := Eval(p.first, s.words, st, fuel);
    if o.Normal? {
      var b := After(p.first, a, d);
      var k := Simulate(s, p.second, b, d, inLoop, o.st, fuel);
      Chain(s, Running(a, st), n, Running(b, o.st), k, Eval(p, s.words, st, fuel), After(p, a, d), d, fuel, fuel);
      n := n + k;
    }
  }

  lemma SimulateIf(s: Setting, p: Program, a: int, d: int, inLoop: bool, st: Stacks, fuel: nat) returns (n: nat)
    requires Placed(s, p, a, d, inLoop) && p.If?
    ensures s.Does(Running(a, st), n, Eval(p, s.words, st, fuel), After(p, a, d), d, fuel)
    ensures Eval(p, s.words, st, fuel).Left? ==> inLoop
    decreases fuel, p, 1
  {
    hide Code, Step;
    PartsOfIf(s, p, a, d, inLoop);
    BranchTurn(s, a, X_0BRANCH, After(p, a, d) - (a + 1), st);
    n := 1;
    if st.s != [] && st.tos != 0 {
      var k := Simulate(s, p.yes, a + 2, d, inLoop, st.Pop(), fuel);
      Chain(s, Running(a, st), 1, Running(a + 2, st.Pop()), k, Eval(p, s.words, st, fuel), After(p, a, d), d, fuel, fuel);
      n := 1 + k;
    }
  }

  lemma SimulateIfElse(s: Setting, p: Program, a: int, d: int, inLoop: bool, st: Stacks, fuel: nat) returns (n: nat)
    requires Placed(s, p, a, d, inLoop) && p.IfElse?
    ensures s.Does(Running(a, st), n, Eval(p, s.words, st, fuel), After(p, a, d), d, fuel)
    ensures Eval(p, s.words, st, fuel).Left? ==> inLoop
    decreases fuel, p, 1
  {
    hide Code, Step, Placed, Cells;
    PartsOfIfElse(s, p, a, d, inLoop);
    var after, b := After(p, a, d), After(p.yes, a + 2, d);
    BranchTurn(s, a, X_0BRANCH, b + 2 - (a + 1), st);
    n := 1;
    if st.s != [] {
      var c, st1 := Running(a, st), st.Pop();
      var o := Eval(p, s.words, st, fuel);
      if st.tos != 0 {
        var k := Simulate(s, p.yes, a + 2, d, inLoop, st1, fuel);
        Chain(s, c, 1, Running(a + 2, st1), k, o, b, d, fuel, fuel);
        n := 1 + k;
        if o.Normal? {
          ThenBranch(s, c, n, b, X_BRANCH, after - (b + 1), o.st);
          n := n + 1;
        }
      } else {
        var k := Simulate(s, p.no, b + 2, d, inLoop, st1, fuel);
        Chain(s, c, 1, Running(b + 2, st1), k, o, after, d, fuel, fuel);
        n := 1 + k;
      }
    }
  }

  lemma SimulateUntil(s: Setting, p: Program, a: int, d: int, inLoop: bool, st: Stacks, fuel: nat) returns (n: nat)
    requires Placed(s, p, a, d, inLoop) && p.BeginUntil?
    ensures s.Does(Running(a, st), n, EvalUntil(p, s.words, st, fuel), After(p, a, d), d, fuel)
    ensures EvalUntil(p, s.words, st, fuel).Left? ==> inLoop
    decreases fuel, p, 1
  {
    hide Code, Step;
    PartsOfBegin(s, p, a, d, inLoop);
    n := 0;
    if fuel != 0 {
      var c, b := Running(a, st), After(p.body, a, d);
      n := Simulate(s, p.body, a, d, inLoop, st, fuel);
      var o := Eval(p.body, s.words, st, fuel);
      if o.Normal? {
        ThenBranch(s, c, n, b, X_0BRANCH, a - (b + 1), o.st);
        n := n + 1;
        if o.st.s != [] && o.st.tos == 0 {
          var k := SimulateUntil(s, p, a, d, inLoop, o.st.Pop(), fuel - 1);
          Chain(s, c, n, Running(a, o.st.Pop()), k, EvalUntil(p, s.words, st, fuel), b + 2, d, fuel, fuel - 1);
          n := n + k;
        }
      }
    }
  }

  lemma SimulateAgain(s: Setting, p: Program, a: int, d: int, inLoop: bool, st: Stacks, fuel: nat) returns (n: nat)
    requires Placed(s, p, a, d, inLoop) && p.BeginAgain?
    ensures s.Does(Running(a, st), n, EvalAgain(p, s.words, st, fuel), After(p, a, d), d, fuel)
    ensures EvalAgain(p, s.words, st, fuel).Left? ==> inLoop
    decreases fuel, p, 1
  {
    hide Code, Step;
    PartsOfBegin(s, p, a, d, inLoop);
    n := 0;
    if fuel != 0 {
      var c, b := Running(a, st), After(p.body, a, d);
      n := Simulate(s, p.body, a, d, inLoop, st, fuel);
      var o := Eval(p.body, s.words, st, fuel);
      if o.Normal? {
        ThenBranch(s, c, n, b, X_BRANCH, a - (b + 1), o.st);
        var k := SimulateAgain(s, p, a, d, inLoop, o.st, fuel - 1);
        Chain(s, c, n + 1, Running(a, o.st), k, EvalAgain(p, s.words, st, fuel), b + 2, d, fuel, fuel - 1);
        n := n + 1 + k;
      }
    }
  }

  lemma SimulateWhile(s: Setting, p: Program, a: int, d: int, inLoop: bool, st: Stacks, fuel: nat) returns (n: nat)
    requires Placed(s, p, a, d, inLoop) && p.BeginWhileRepeat?
    ensures s.Does(Running(a, st), n, EvalWhile(p, s.words, st, fuel), After(p, a, d), d, fuel)
    ensures EvalWhile(p, s.words, st, fuel).Left? ==> inLoop
    decreases fuel, p, 1
  {
    hide Code, Step;
    PartsOfWhile(s, p, a, d, inLoop);
    n := 0;
    if fuel != 0 {
      var c, b := Running(a, st), After(p.test, a, d);
      var e := After(p.body, b + 2, d);
      n := Simulate(s, p.test, a, d, inLoop, st, fuel);
      var o := Eval(p.test, s.words, st, fuel);
      if o.Normal? {
        ThenBranch(s, c, n, b, X_0BRANCH, e + 2 - (b + 1), o.st);
        n := n + 1;
        if o.st.s != [] && o.st.tos != 0 {
          var k := SimulateRepeat(s, p, a, d, inLoop, o.st.Pop(), fuel);
          Chain(s, c, n, Running(b + 2, o.st.Pop()), k, EvalWhile(p, s.words, st, fuel), After(p, a, d), d, fuel, fuel - 1);
          n := n + k;
        }
      }
    }
  }

  /** From the body of a WHILE loop: the body, the branch back, and the rest of the loop. */
  lemma SimulateRepeat(s: Setting, p: Program, a: int, d: int, inLoop: bool, st: Stacks, fuel: nat) returns (n: nat)
    requires Placed(s, p, a, d, inLoop) && p.BeginWhileRepeat? && fuel > 0
    ensures
      var o := Eval(p.body, s.words, st, fuel);
      var o' := if o.Normal? then EvalWhile(p, s.words, o.st, fuel - 1) else o;
      s.Does(Running(After(p.test, a, d) + 2, st), n, o', After(p, a, d), d, fuel - 1) && (o'.Left? ==> inLoop)
    decreases fuel, p, 0
  {
    hide Code, Step;
    PartsOfWhile(s, p, a, d, inLoop);
    var b := After(p.test, a, d);
    var e := After(p.body, b + 2, d);
    n := Simulate(s, p.body, b + 2, d, inLoop, st, fuel);
    var o := Eval(p.body, s.words, st, fuel);
    if o.Normal? {
      ThenBranch(s, Running(b + 2, st), n, e, X_BRANCH, a - (e + 1), o.st);
      var k := SimulateWhile(s, p, a, d, inLoop, o.st, fuel - 1);
      Chain(s, Running(b + 2, st), n + 1, Running(a, o.st), k, EvalWhile(p, s.words, o.st, fuel - 1), e + 2, d, fuel - 1, fuel - 1);
      n := n + 1 + k;
    }
  }

  lemma SimulateLoop(s: Setting, p: Program, a: int, d: int, inLoop: bool, st: Stacks, fuel: nat) returns (n: nat)
    requires Placed(s, p, a, d, inLoop) && p.DoLoop?
    ensures s.Does(Running(a + 2, st), n, EvalLoop(p, s.words, st, fuel), After(p, a, d), d, fuel)
    ensures !EvalLoop(p, s.words, st, fuel).Left?
    decreases fuel, p, 0
  {
    hide Code, Step;
    PartsOfDo(s, p, a, d, inLoop);
    n := 0;
    if fuel != 0 {
      var c, e := Running(a + 2, st), After(p.body, a + 2, a + 1);
      n := Simulate(s, p.body, a + 2, a + 1, true, st, fuel);
      var o := Eval(p.body, s.words, st, fuel);
      if o.Normal? {
        ThenBranch(s, c, n, e, X_LOOP, a + 2 - (e + 1), o.st);
        n := n + 1;
        if |o.st.r| >= 2 && !o.st.Count().AtLimit() {
          var k := SimulateLoop(s, p, a, d, inLoop, o.st.Count(), fuel - 1);
          Chain(s, c, n, Running(a + 2, o.st.Count()), k, EvalLoop(p, s.words, st, fuel), e + 2, d, fuel, fuel - 1);
          n := n + k;
        }
      }
    }
  }

  lemma SimulateDo(s: Setting, p: Program, a: int, d: int, inLoop: bool, st: Stacks, fuel: nat) returns (n: nat)
    requires Placed(s, p, a, d, inLoop) && p.DoLoop?
    ensures s.Does(Running(a, st), n, Eval(p, s.words, st, fuel), After(p, a, d), d, fuel)
    ensures Eval(p, s.words, st, fuel).Left? ==> inLoop
    decreases fuel, p, 1
  {
    hide Code;
    PartsOfDo(s, p, a, d, inLoop);
    OneTurn(s, a, st);
    n := 1;
    if |st.s| >= 2 && !(p.question && st.tos == st.s[|st.s| - 1]) {
      var k := SimulateLoop(s, p, a, d, inLoop, st.EnterLoop(), fuel);
      Chain(s, Running(a, st), 1, Running(a + 2, st.EnterLoop()), k, Eval(p, s.words, st, fuel), After(p, a, d), d, fuel, fuel);
      n := 1 + k;
    }
  }

  /** Compiler correctness: from p's first cell the machine does what p means, arriving just
      after p's last cell, or just after the enclosing loop, with the same stacks. */
  lemma Simulate(s: Setting, p: Program, a: int, d: int, inLoop: bool, st: Stacks, fuel: nat) returns (n: nat)
    requires Placed(s, p, a, d, inLoop)
    ensures s.Does(Running(a, st), n, Eval(p, s.words, st, fuel), After(p, a, d), d, fuel)
    ensures Eval(p, s.words, st, fuel).Left? ==> inLoop
    decreases fuel, p, 2
  {
    match p
    case Nothing => n := 0;
    case Word(_) => OneTurn(s, a, st); n := 1;
    case Literal(_) => OneTurn(s, a, st); n := 1;
    case Then(_, _) => n := SimulateThen(s, p, a, d, inLoop, st, fuel);
    case If(_) => n := SimulateIf(s, p, a, d, inLoop, st, fuel);
    case IfElse(_, _) => n := SimulateIfElse(s, p, a, d, inLoop, st, fuel);
    case BeginUntil(_) => n := SimulateUntil(s, p, a, d, inLoop, st, fuel);
    case BeginAgain(_) => n := SimulateAgain(s, p, a, d, inLoop, st, fuel);
    case BeginWhileRepeat(_, _) => n := SimulateWhile(s, p, a, d, inLoop, st, fuel);
    case DoLoop(_, _) => n := SimulateDo(s, p, a, d, inLoop, st, fuel);
    case Leave => OneTurn(s, a, st); n := 1;
    case QLeave => OneTurn(s, a, st); n := 1;
  }

  // ---- main results -----------------------------------------------------------------

  /** The stretch of memory a closed program occupies. */
  function Stretch(m: Memory, words: Words, p: Program, a: int, d: int): Setting {
    Setting(m, words, a, After(p, a, d))
  }

  /** What the machine must have come to when the program means o. */
  ghost predicate Matches(c: Config, o: Outcome, after: int) {
    match o
    case Normal(st) => c == Running(after, st)
    case Faulted => c == Fault
    case _ => false
  }

  /** A run that has left the code has found the meaning; given n turns, n + 1 iterations of
      each loop are fuel enough. */
  lemma ReachedIsMeaning(m: Memory, words: Words, p: Program, a: int, d: int, st: Stacks, n: nat)
    requires WellFormed(p, false) && Installed(m, a, Code(p, a, d))
    ensures
      var c := Stretch(m, words, p, a, d).Run(Running(a, st), n);
      Inside(a, After(p, a, d), c) || Matches(c, Eval(p, words, st, n + 1), After(p, a, d))
  {
    var s := Stretch(m, words, p, a, d);
    var k := Simulate(s, p, a, d, false, st, n + 1);
    hide Code, Eval;
    if !Inside(s.lo, s.hi, s.Run(Running(a, st), n)) {
      if n <= k {
        RunOutside(m, words, s.lo, s.hi, Running(a, st), n, k);
      } else {
        RunOutside(m, words, s.lo, s.hi, Running(a, st), k, n);
      }
    }
  }

  /** A meaning found with some fuel is reached by some run. */
  lemma MeaningIsReached(m: Memory, words: Words, p: Program, a: int, d: int, st: Stacks, fuel: nat) returns (n: nat)
    requires WellFormed(p, false) && Installed(m, a, Code(p, a, d))
    ensures
      var o := Eval(p, words, st, fuel);
      var c := Stretch(m, words, p, a, d).Run(Running(a, st), n);
      if o == Unfinished then fuel <= n && Inside(a, After(p, a, d), c)
      else !Inside(a, After(p, a, d), c) && Matches(c, o, After(p, a, d))
  {
    n := Simulate(Stretch(m, words, p, a, d), p, a, d, false, st, fuel);
  }

  /** The machine, started at the first cell, reaches the cell after the last with stacks st'
      exactly when the program's meaning is st'. */
  lemma CompilerCorrect(m: Memory, words: Words, p: Program, a: int, d: int, st: Stacks, st': Stacks)
    requires WellFormed(p, false) && Installed(m, a, Code(p, a, d))
    ensures (exists fuel: nat :: Eval(p, words, st, fuel) == Normal(st'))
       <==> (exists n: nat :: Stretch(m, words, p, a, d).Run(Running(a, st), n) == Running(After(p, a, d), st'))
  {
    var s := Stretch(m, words, p, a, d);
    if fuel: nat :| Eval(p, words, st, fuel) == Normal(st') {
      var n := MeaningIsReached(m, words, p, a, d, st, fuel);
      assert s.Run(Running(a, st), n) == Running(After(p, a, d), st');
    }
    if n: nat :| s.Run(Running(a, st), n) == Running(After(p, a, d), st') {
      ReachedIsMeaning(m, words, p, a, d, st, n);
      assert Eval(p, words, st, n + 1) == Normal(st');
    }
  }

  /** It faults exactly when the program does. */
  lemma FaultsAgree(m: Memory, words: Words, p: Program, a: int, d: int, st: Stacks)
    requires WellFormed(p, false) && Installed(m, a, Code(p, a, d))
    ensures (exists fuel: nat :: Eval(p, words, st, fuel) == Faulted)
       <==> (exists n: nat :: Stretch(m, words, p, a, d).Run(Running(a, st), n) == Fault)
  {
    var s := Stretch(m, words, p, a, d);
    if fuel: nat :| Eval(p, words, st, fuel) == Faulted {
      var n := MeaningIsReached(m, words, p, a, d, st, fuel);
      assert s.Run(Running(a, st), n) == Fault;
    }
    if n: nat :| s.Run(Running(a, st), n) == Fault {
      ReachedIsMeaning(m, words, p, a, d, st, n);
      assert Eval(p, words, st, n + 1) == Faulted;
    }
  }

  /** It runs inside the code for ever exactly when no fuel finishes the program. */
  lemma DivergenceAgrees(m: Memory, words: Words, p: Program, a: int, d: int, st: Stacks)
    requires WellFormed(p, false) && Installed(m, a, Code(p, a, d))
    ensures (forall fuel: nat :: Eval(p, words, st, fuel) == Unfinished)
       <==> (forall n: nat :: Inside(a, After(p, a, d), Stretch(m, words, p, a, d).Run(Running(a, st), n)))
  {
    var s := Stretch(m, words, p, a, d);
    if n: nat :| !Inside(a, s.hi, s.Run(Running(a, st), n)) {
      ReachedIsMeaning(m, words, p, a, d, st, n);
      assert Eval(p, words, st, n + 1) != Unfinished;
    }
    if fuel: nat :| Eval(p, words, st, fuel) != Unfinished {
      var n := MeaningIsReached(m, words, p, a, d, st, fuel);
      assert !Inside(a, s.hi, s.Run(Running(a, st), n));
    }
  }

  /** Compile p at dp, then run it for some turns: unless it is still inside the code, the
      machine has stopped with what p means, just after the code or at a fault. */
  method CompileAndExecute(compiler: Compiler, p: Program, words: Words, st: Stacks, turns: nat)
    returns (machine: Machine)
    requires compiler.Valid() && WellFormed(p, false)
    modifies compiler
    ensures compiler.Valid() && compiler.s == old(compiler.s) && compiler.tos == old(compiler.tos)
    ensures Inside(old(compiler.dp), compiler.dp, machine.State())
         || Matches(machine.State(), Eval(p, words, st, turns + 1), compiler.dp)
  {
    hide WellFormed, Installed, Code, Eval, Run, Inside, Matches, StoredOnce;
    var a := compiler.dp;
    ghost var d := compiler.m[INNERLOOP];
    compiler.Compile(p);
    machine := new Machine(compiler.m, words, a, st);
    var _ := machine.Execute(a, compiler.dp, turns);
    ReachedIsMeaning(compiler.m, words, p, a, d, st, turns);
  }
}
