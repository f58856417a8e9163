/** The control-flow emitters of jsforth: they lay down relative branches and patch the
    forward ones later, keeping what they must remember on the data stack. */
module ControlFlow {
  import opened VirtualMachine

  /** Address of the cell that holds the operand address of the innermost open DO. */
  const INNERLOOP := 0

  /** A structured program: plain words and any nesting of the control constructs. */
  datatype Program =
    | Nothing
    | Word(xt: int)
    | Literal(n: int)
    | Then(first: Program, second: Program)
    | If(yes: Program)
    | IfElse(yes: Program, no: Program)
    | BeginUntil(body: Program)
    | BeginAgain(body: Program)
    | BeginWhileRepeat(test: Program, body: Program)
    | DoLoop(question: bool, body: Program)
    | Leave
    | QLeave

  /** LEAVE only inside a loop, and plain words only in the place of words. */
  predicate WellFormed(p: Program, inLoop: bool) {
    match p
    case Nothing => true
    case Word(xt) => !IsControl(xt)
    case Literal(_) => true
    case Then(a, b) => WellFormed(a, inLoop) && WellFormed(b, inLoop)
    case If(a) => WellFormed(a, inLoop)
    case IfElse(a, b) => WellFormed(a, inLoop) && WellFormed(b, inLoop)
    case BeginUntil(a) => WellFormed(a, inLoop)
    case BeginAgain(a) => WellFormed(a, inLoop)
    case BeginWhileRepeat(a, b) => WellFormed(a, inLoop) && WellFormed(b, inLoop)
    case DoLoop(_, a) => WellFormed(a, true)
    case Leave => inLoop
    case QLeave => inLoop
  }

  /** The finished cells of p at address a, in a loop whose DO has its operand at d. */
  function Code(p: Program, a: int, d: int): seq<int> {
    match p
    case Nothing => []
    case Word(xt) => [xt]
    case Literal(n) => [X_LIT, n]
    case Then(p1, p2) =>
      var c := Code(p1, a, d);
      c + Code(p2, a + |c|, d)
    case If(yes) =>
      var c := Code(yes, a + 2, d);
      [X_0BRANCH, |c| + 1] + c
    case IfElse(yes, no) =>
      var c1 := Code(yes, a + 2, d);
      var c2 := Code(no, a + |c1| + 4, d);
      [X_0BRANCH, |c1| + 3] + c1 + [X_BRANCH, |c2| + 1] + c2
    case BeginUntil(body) =>
      var c := Code(body, a, d);
      c + [X_0BRANCH, -(|c| + 1)]
    case BeginAgain(body) =>
      var c := Code(body, a, d);
      c + [X_BRANCH, -(|c| + 1)]
    case BeginWhileRepeat(test, body) =>
      var c1 := Code(test, a, d);
      var c2 := Code(body, a + |c1| + 2, d);
      c1 + [X_0BRANCH, |c2| + 3] + c2 + [X_BRANCH, -(|c1| + |c2| + 3)]
    case DoLoop(question, body) =>
      var c := Code(body, a + 2, a + 1);
      [if question then X_QDO else X_DO, |c| + 3] + c + [X_LOOP, -(|c| + 1)]
    case Leave => [X_LEAVE, d]
    case QLeave => [X_QLEAVE, d]
  }

  ghost predicate Installed(m: Memory, a: int, c: seq<int>) {
    forall k :: a <= k < a + |c| ==> k in m && m[k] == c[k - a]
  }

  lemma InstalledConcat(m: Memory, a: int, c1: seq<int>, c2: seq<int>)
    ensures Installed(m, a, c1 + c2) <==> Installed(m, a, c1) && Installed(m, a + |c1|, c2)
  {
    var c := c1 + c2;
    if Installed(m, a, c) {
      forall k | a <= k < a + |c1| ensures k in m && m[k] == c1[k - a] {
        assert c[k - a] == c1[k - a];
      }
      forall k | a + |c1| <= k < a + |c| ensures k in m && m[k] == c2[k - (a + |c1|)] {
        assert c[k - a] == c2[k - (a + |c1|)];
      }
    }
  }

  /** Nothing but the cells in [lo, hi) differs. */
  ghost predicate SameOutside(m: Memory, m': Memory, lo: int, hi: int) {
    forall k :: k in m && !(lo <= k < hi) ==> k in m' && m'[k] == m[k]
  }

  /** Every cell in [lo, hi) has been stored to once more, and no other but the scratch cell. */
  ghost predicate StoredOnce(w: multiset<int>, w': multiset<int>, lo: int, hi: int) {
    && (forall k :: lo <= k < hi ==> w'[k] == w[k] + 1)
    && (forall k :: !(lo <= k < hi) && k != INNERLOOP ==> w'[k] == w[k])
  }

  /** The compiler's state: memory, dictionary pointer and the data stack. */
  class Compiler {
    var m: Memory
    var dp: int
    var s: seq<int>
    var tos: int
    ghost var stores: multiset<int>

    ghost predicate Valid()
      reads this
    {
      INNERLOOP in m && INNERLOOP < dp
    }

    method Store(a: int, x: int)
      modifies `m, `stores
      ensures m == old(m)[a := x] && stores == old(stores) + multiset{a}
    {
      m := m[a := x];
      stores := stores + multiset{a};
    }

    /** One more cell at the end of the dictionary. */
    method Comma(x: int)
      modifies `m, `dp, `stores
      ensures m == old(m)[old(dp) := x] && dp == old(dp) + 1
      ensures stores == old(stores) + multiset{old(dp)}
    {
      Store(dp, x);
      dp := dp + 1;
    }

    method PopTos()
      requires s != []
      modifies `s, `tos
      ensures s == old(s)[..|old(s)| - 1] && tos == old(s)[|old(s)| - 1]
    {
      s, tos := s[..|s| - 1], s[|s| - 1];
    }

    method EmitIf()
      modifies this
      ensures m == old(m)[old(dp) := X_0BRANCH] && dp == old(dp) + 2
      ensures s == old(s) + [old(tos)] && tos == old(dp) + 1
      ensures stores == old(stores) + multiset{old(dp)}
    {
      Comma(X_0BRANCH);
      s := s + [tos];
      tos := dp;
      dp := dp + 1;
    }

    method EmitElse()
      modifies this
      ensures m == old(m)[old(dp) := X_BRANCH][old(tos) := old(dp) + 2 - old(tos)] && dp == old(dp) + 2
      ensures s == old(s) && tos == old(dp) + 1
      ensures stores == old(stores) + multiset{old(dp)} + multiset{old(tos)}
    {
      Comma(X_BRANCH);
      s := s + [dp];
      dp := dp + 1;
      Store(tos, dp - tos);
      PopTos();
    }

    method EmitThen()
      requires s != []
      modifies this
      ensures m == old(m)[old(tos) := old(dp) - old(tos)] && dp == old(dp)
      ensures s == old(s)[..|old(s)| - 1] && tos == old(s)[|old(s)| - 1]
      ensures stores == old(stores) + multiset{old(tos)}
    {
      Store(tos, dp - tos);
      PopTos();
    }

    method EmitBegin()
      modifies this
      ensures m == old(m) && dp == old(dp) && s == old(s) + [old(tos)] && tos == dp
      ensures stores == old(stores)
    {
      s := s + [tos];
      tos := dp;
    }

    /** UNTIL and AGAIN differ in the branch they end with. */
    method EmitBranchBack(xt: int)
      requires s != []
      modifies this
      ensures m == old(m)[old(dp) := xt][old(dp) + 1 := old(tos) - (old(dp) + 1)] && dp == old(dp) + 2
      ensures s == old(s)[..|old(s)| - 1] && tos == old(s)[|old(s)| - 1]
      ensures stores == old(stores) + multiset{old(dp)} + multiset{old(dp) + 1}
    {
      Comma(xt);
      Comma(tos - dp);
      PopTos();
    }

    method EmitRepeat()
      requires |s| >= 2
      modifies this
      ensures m == old(m)[old(dp) := X_BRANCH][old(dp) + 1 := old(s)[|old(s)| - 1] - (old(dp) + 1)]
                         [old(tos) := old(dp) + 2 - old(tos)]
      ensures dp == old(dp) + 2
      ensures s == old(s)[..|old(s)| - 2] && tos == old(s)[|old(s)| - 2]
      ensures stores == old(stores) + multiset{old(dp)} + multiset{old(dp) + 1} + multiset{old(tos)}
    {
      Comma(X_BRANCH);
      var begin := s[|s| - 1];
      s := s[..|s| - 1];
      Comma(begin - dp);
      Store(tos, dp - tos);
      PopTos();
    }

    /** makeDO: the enclosing loop's operand address is saved below the new one. */
    method EmitDo(xt: int)
      requires Valid()
      modifies this
      ensures m == old(m)[old(dp) := xt][INNERLOOP := old(dp) + 1] && dp == old(dp) + 2
      ensures s == old(s) + [old(m)[INNERLOOP], old(dp) + 1] && tos == old(tos)
      ensures stores == old(stores) + multiset{old(dp)} + multiset{INNERLOOP}
    {
      Comma(xt);
      s := s + [m[INNERLOOP]];
      Store(INNERLOOP, dp);
      s := s + [dp];
      dp := dp + 1;
    }

    method EmitLoop()
      requires |s| >= 2
      modifies this
      ensures
        var operand, outer := old(s)[|old(s)| - 1], old(s)[|old(s)| - 2];
        && m == old(m)[old(dp) := X_LOOP][old(dp) + 1 := operand + 2 - (old(dp) + 2)]
                      [operand := old(dp) + 2 - operand][INNERLOOP := outer]
        && stores == old(stores) + multiset{old(dp)} + multiset{old(dp) + 1} + multiset{operand} + multiset{INNERLOOP}
      ensures dp == old(dp) + 2 && s == old(s)[..|old(s)| - 2] && tos == old(tos)
    {
      Comma(X_LOOP);
      Comma(s[|s| - 1] + 2 - (dp + 1));
      CloseLoop();
    }

    /** DO's operand becomes the way to the exit, and the enclosing loop is the innermost again. */
    method CloseLoop()
      requires |s| >= 2
      modifies `m, `s, `stores
      ensures
        var operand, outer := old(s)[|old(s)| - 1], old(s)[|old(s)| - 2];
        && m == old(m)[operand := dp - operand][INNERLOOP := outer]
        && stores == old(stores) + multiset{operand} + multiset{INNERLOOP}
      ensures s == old(s)[..|old(s)| - 2]
    {
      var operand := PopCell();
      Store(operand, dp - operand);
      var outer := PopCell();
      Store(INNERLOOP, outer);
      assert old(s)[..|old(s)| - 1][..|old(s)| - 2] == old(s)[..|old(s)| - 2];
    }

    /** The element below the cached top is taken off. */
    method PopCell() returns (x: int)
      requires s != []
      modifies `s
      ensures x == old(s)[|old(s)| - 1] && s == old(s)[..|old(s)| - 1]
    {
      x := s[|s| - 1];
      s := s[..|s| - 1];
    }

    /** LEAVE and ?LEAVE name the loop by the address of its DO's operand. */
    method EmitLeave(xt: int)
      requires Valid()
      modifies this
      ensures m == old(m)[old(dp) := xt][old(dp) + 1 := old(m)[INNERLOOP]] && dp == old(dp) + 2
      ensures s == old(s) && tos == old(tos)
      ensures stores == old(stores) + multiset{old(dp)} + multiset{old(dp) + 1}
    {
      Comma(xt);
      Comma(m[INNERLOOP]);
    }

    /** Compiling a whole program lays down its finished code from dp on, stores to each of
        those cells exactly once, and leaves everything else, the compile-time stack and
        the innermost-loop cell as they were. */
    method Compile(p: Program)
      requires Valid()
      modifies this
      ensures Valid() && old(dp) <= dp && Compiled(p, old(dp), old(m), m, dp)
      ensures s == old(s) && tos == old(tos)
      ensures StoredOnce(old(stores), stores, old(dp), dp)
      decreases p, 1
    {
      hide Compiled, StoredOnce;
      match p
      case Then(_, _) => CompileThen(p);
      case If(_) => CompileIf(p);
      case IfElse(_, _) => CompileIfElse(p);
      case BeginUntil(body) => CompileBegin(p, body, X_0BRANCH);
      case BeginAgain(body) => CompileBegin(p, body, X_BRANCH);
      case BeginWhileRepeat(_, _) => CompileWhile(p);
      case DoLoop(_, _) => CompileDo(p);
      case _ => CompileSimple(p);
    }

    /** What takes no nesting: nothing, words, literals and the ways out of a loop. */
    method CompileSimple(p: Program)
      requires Valid() && (p.Nothing? || p.Word? || p.Literal? || p.Leave? || p.QLeave?)
      modifies this
      ensures Valid() && old(dp) <= dp && Compiled(p, old(dp), old(m), m, dp)
      ensures s == old(s) && tos == old(tos)
      ensures StoredOnce(old(stores), stores, old(dp), dp)
    {
      hide Laid, StoredOnce;
      ghost var a, m0, w0 := dp, m, stores;
      match p
      case Nothing => NothingLaid(m0, a, w0);
      case Word(xt) =>
        CellLaid(m0, a, xt, w0);
        Comma(xt);
      case Literal(n) =>
        PairLaid(m0, a, X_LIT, n, w0);
        Comma(X_LIT);
        Comma(n);
      case Leave =>
        PairLaid(m0, a, X_LEAVE, m0[INNERLOOP], w0);
        EmitLeave(X_LEAVE);
      case QLeave =>
        PairLaid(m0, a, X_QLEAVE, m0[INNERLOOP], w0);
        EmitLeave(X_QLEAVE);
    }

    method CompileThen(p: Program)
      requires Valid() && p.Then?
      modifies this
      ensures Valid() && old(dp) <= dp && Compiled(p, old(dp), old(m), m, dp)
      ensures s == old(s) && tos == old(tos)
      ensures StoredOnce(old(stores), stores, old(dp), dp)
      decreases p, 0
    {
      hide Compiled, StoredOnce;
      ghost var a, m0, w0 := dp, m, stores;
      Compile(p.first);
      ghost var b, m1, w1 := dp, m, stores;
      Compile(p.second);
      ThenCompiled(p, a, m0, b, m1, dp, m);
      ThenStored(w0, w1, stores, a, b, dp);
    }

    method CompileIf(p: Program)
      requires Valid() && p.If?
      modifies this
      ensures Valid() && old(dp) <= dp && Compiled(p, old(dp), old(m), m, dp)
      ensures s == old(s) && tos == old(tos)
      ensures StoredOnce(old(stores), stores, old(dp), dp)
      decreases p, 0
    {
      hide Compiled, StoredOnce;
      ghost var a, m0, w0 := dp, m, stores;
      EmitIf();
      ghost var m1, w1 := m, stores;
      Compile(p.yes);
      ghost var m2, w2 := m, stores;
      EmitThen();
      IfCompiled(p, a, m0, m1, dp, m2, m);
      PatchedStored(w0, w1, w2, stores, a, dp, a + 1);
    }

    method CompileIfElse(p: Program)
      requires Valid() && p.IfElse?
      modifies this
      ensures Valid() && old(dp) <= dp && Compiled(p, old(dp), old(m), m, dp)
      ensures s == old(s) && tos == old(tos)
      ensures StoredOnce(old(stores), stores, old(dp), dp)
      decreases p, 0
    {
      hide Compiled, StoredOnce;
      ghost var a, m0, w0 := dp, m, stores;
      EmitIf();
      ghost var m1, w1 := m, stores;
      Compile(p.yes);
      ghost var b, m2, w2 := dp, m, stores;
      EmitElse();
      ghost var m3, w3 := m, stores;
      Compile(p.no);
      ghost var m4, w4 := m, stores;
      EmitThen();
      IfElseCompiled(p, a, m0, m1, b, m2, m3, dp, m4, m);
      PatchedStored(w0, w1, w2, w2 + multiset{a + 1}, a, b, a + 1);
      assert w3 == w2 + multiset{a + 1} + multiset{b};
      PatchedStored(w2 + multiset{a + 1}, w3, w4, stores, b, dp, b + 1);
      ThenStored(w0, w2 + multiset{a + 1}, stores, a, b, dp);
    }

    method CompileBegin(p: Program, body: Program, xt: int)
      requires Valid()
      requires (p == BeginUntil(body) && xt == X_0BRANCH) || (p == BeginAgain(body) && xt == X_BRANCH)
      modifies this
      ensures Valid() && old(dp) <= dp && Compiled(p, old(dp), old(m), m, dp)
      ensures s == old(s) && tos == old(tos)
      ensures StoredOnce(old(stores), stores, old(dp), dp)
      decreases p, 0
    {
      hide Compiled, StoredOnce;
      ghost var a, m0, w0 := dp, m, stores;
      EmitBegin();
      Compile(body);
      ghost var b, m1, w1 := dp, m, stores;
      EmitBranchBack(xt);
      BeginCompiled(p, body, xt, a, m0, b, m1, m);
      PairStored(w1, stores, b);
      ThenStored(w0, w1, stores, a, b, dp);
    }

    method CompileWhile(p: Program)
      requires Valid() && p.BeginWhileRepeat?
      modifies this
      ensures Valid() && old(dp) <= dp && Compiled(p, old(dp), old(m), m, dp)
      ensures s == old(s) && tos == old(tos)
      ensures StoredOnce(old(stores), stores, old(dp), dp)
      decreases p, 0
    {
      hide Compiled, StoredOnce;
      ghost var a, m0, w0, s0, t0 := dp, m, stores, s, tos;
      EmitBegin();
      Compile(p.test);
      ghost var b, m1, w1 := dp, m, stores;
      EmitIf();
      ghost var m2, w2 := m, stores;
      Compile(p.body);
      ghost var e, m3, w3 := dp, m, stores;
      assert s == s0 + [t0, a] && (s0 + [t0, a])[..|s0|] == s0;
      EmitRepeat();
      WhileCompiled(p, a, m0, b, m1, m2, e, m3, m);
      WhileStored(w0, w1, w2, w3, stores, a, b, e);
    }

    method CompileDo(p: Program)
      requires Valid() && p.DoLoop?
      modifies this
      ensures Valid() && old(dp) <= dp && Compiled(p, old(dp), old(m), m, dp)
      ensures s == old(s) && tos == old(tos)
      ensures StoredOnce(old(stores), stores, old(dp), dp)
      decreases p, 0
    {
      hide Compiled, StoredOnce;
      ghost var a, m0, w0 := dp, m, stores;
      EmitDo(if p.question then X_QDO else X_DO);
      ghost var m1, w1 := m, stores;
      Compile(p.body);
      ghost var e, m2, w2 := dp, m, stores;
      EmitLoop();
      DoCompiled(p, a, m0, m1, e, m2, m);
      DoStored(w0, w1, w2, stores, a, e);
    }
  }

  /** What compiling p at a has made of memory. */
  ghost predicate Compiled(p: Program, a: int, m: Memory, m': Memory, dp: int) {
    && INNERLOOP in m
    && Laid(Code(p, a, m[INNERLOOP]), a, m, m', dp)
  }

  /** The cells c have been laid down at a, and nothing else has changed. */
  ghost predicate Laid(c: seq<int>, a: int, m: Memory, m': Memory, hi: int) {
    hi == a + |c| && Installed(m', a, c) && SameOutside(m, m', a, hi)
  }

  lemma NothingLaid(m: Memory, a: int, w: multiset<int>)
    ensures Laid([], a, m, m, a) && StoredOnce(w, w, a, a)
  {}

  lemma CellLaid(m: Memory, a: int, x: int, w: multiset<int>)
    ensures Laid([x], a, m, m[a := x], a + 1) && StoredOnce(w, w + multiset{a}, a, a + 1)
  {}

  lemma PairLaid(m: Memory, a: int, x: int, y: int, w: multiset<int>)
    ensures Laid([x, y], a, m, m[a := x][a + 1 := y], a + 2)
    ensures StoredOnce(w, w + multiset{a} + multiset{a + 1}, a, a + 2)
  {}

  // How each construct's code comes about, memory by memory.

  lemma ThenCompiled(p: Program, a: int, m0: Memory, b: int, m1: Memory, e: int, m2: Memory)
    requires p.Then? && INNERLOOP < a && Compiled(p.first, a, m0, m1, b) && Compiled(p.second, b, m1, m2, e)
    ensures Compiled(p, a, m0, m2, e)
  {
    var d := m0[INNERLOOP];
    InstalledConcat(m2, a, Code(p.first, a, d), Code(p.second, b, d));
  }

  lemma IfCompiled(p: Program, a: int, m0: Memory, m1: Memory, e: int, m2: Memory, m3: Memory)
    requires p.If? && INNERLOOP < a && INNERLOOP in m0 && m1 == m0[a := X_0BRANCH]
    requires Compiled(p.yes, a + 2, m1, m2, e) && m3 == m2[a + 1 := e - (a + 1)]
    ensures Compiled(p, a, m0, m3, e)
  {
    IfCells(Code(p.yes, a + 2, m0[INNERLOOP]), a, m0, m1, e, m2, m3);
  }

  lemma IfCells(c: seq<int>, a: int, m0: Memory, m1: Memory, e: int, m2: Memory, m3: Memory)
    requires m1 == m0[a := X_0BRANCH] && Laid(c, a + 2, m1, m2, e) && m3 == m2[a + 1 := e - (a + 1)]
    ensures Laid([X_0BRANCH, |c| + 1] + c, a, m0, m3, e)
  {
    var h := [X_0BRANCH, |c| + 1];
    assert Installed(m3, a, h) && Installed(m3, a + 2, c);
    hide Installed;
    InstalledConcat(m3, a, h, c);
  }

  lemma IfElseCompiled(p: Program, a: int, m0: Memory, m1: Memory, b: int, m2: Memory, m3: Memory,
                       e: int, m4: Memory, m5: Memory)
    requires p.IfElse? && INNERLOOP < a && INNERLOOP in m0 && m1 == m0[a := X_0BRANCH]
    requires Compiled(p.yes, a + 2, m1, m2, b) && m3 == m2[b := X_BRANCH][a + 1 := b + 2 - (a + 1)]
    requires Compiled(p.no, b + 2, m3, m4, e) && m5 == m4[b + 1 := e - (b + 1)]
    ensures Compiled(p, a, m0, m5, e)
  {
    var d := m0[INNERLOOP];
    IfElseCells(Code(p.yes, a + 2, d), Code(p.no, b + 2, d), a, m0, m1, b, m2, m3, e, m4, m5);
  }

  lemma IfElseCells(c1: seq<int>, c2: seq<int>, a: int, m0: Memory, m1: Memory, b: int, m2: Memory, m3: Memory,
                    e: int, m4: Memory, m5: Memory)
    requires m1 == m0[a := X_0BRANCH]
    requires Laid(c1, a + 2, m1, m2, b) && m3 == m2[b := X_BRANCH][a + 1 := b + 2 - (a + 1)]
    requires Laid(c2, b + 2, m3, m4, e) && m5 == m4[b + 1 := e - (b + 1)]
    ensures Laid([X_0BRANCH, |c1| + 3] + c1 + [X_BRANCH, |c2| + 1] + c2, a, m0, m5, e)
  {
    var h1, h2 := [X_0BRANCH, |c1| + 3], [X_BRANCH, |c2| + 1];
    assert Installed(m5, a, h1) && Installed(m5, a + 2, c1) && Installed(m5, b, h2) && Installed(m5, b + 2, c2);
    hide Installed;
    InstalledConcat(m5, a, h1, c1);
    InstalledConcat(m5, a, h1 + c1, h2);
    InstalledConcat(m5, a, h1 + c1 + h2, c2);
  }

  lemma BeginCompiled(p: Program, body: Program, xt: int, a: int, m0: Memory, b: int, m1: Memory, m2: Memory)
    requires (p == BeginUntil(body) && xt == X_0BRANCH) || (p == BeginAgain(body) && xt == X_BRANCH)
    requires INNERLOOP < a && Compiled(body, a, m0, m1, b) && m2 == m1[b := xt][b + 1 := a - (b + 1)]
    ensures Compiled(p, a, m0, m2, b + 2)
  {
    var c := Code(body, a, m0[INNERLOOP]);
    InstalledConcat(m2, a, c, [xt, -(|c| + 1)]);
  }

  lemma WhileCompiled(p: Program, a: int, m0: Memory, b: int, m1: Memory, m2: Memory, e: int, m3: Memory, m4: Memory)
    requires p.BeginWhileRepeat? && INNERLOOP < a
    requires Compiled(p.test, a, m0, m1, b) && m2 == m1[b := X_0BRANCH]
    requires Compiled(p.body, b + 2, m2, m3, e)
    requires m4 == m3[e := X_BRANCH][e + 1 := a - (e + 1)][b + 1 := e + 2 - (b + 1)]
    ensures Compiled(p, a, m0, m4, e + 2)
  {
    var d := m0[INNERLOOP];
    WhileCells(Code(p.test, a, d), Code(p.body, b + 2, d), a, m0, b, m1, m2, e, m3, m4);
  }

  lemma WhileCells(c1: seq<int>, c2: seq<int>, a: int, m0: Memory, b: int, m1: Memory, m2: Memory,
                   e: int, m3: Memory, m4: Memory)
    requires Laid(c1, a, m0, m1, b) && m2 == m1[b := X_0BRANCH]
    requires Laid(c2, b + 2, m2, m3, e)
    requires m4 == m3[e := X_BRANCH][e + 1 := a - (e + 1)][b + 1 := e + 2 - (b + 1)]
    ensures Laid(c1 + [X_0BRANCH, |c2| + 3] + c2 + [X_BRANCH, -(|c1| + |c2| + 3)], a, m0, m4, e + 2)
  {
    var h1, h2 := [X_0BRANCH, |c2| + 3], [X_BRANCH, -(|c1| + |c2| + 3)];
    assert Installed(m4, a, c1) && Installed(m4, b, h1) && Installed(m4, b + 2, c2) && Installed(m4, e, h2);
    hide Installed;
    InstalledConcat(m4, a, c1, h1);
    InstalledConcat(m4, a, c1 + h1, c2);
    InstalledConcat(m4, a, c1 + h1 + c2, h2);
  }

  lemma DoCompiled(p: Program, a: int, m0: Memory, m1: Memory, e: int, m2: Memory, m3: Memory)
    requires p.DoLoop? && INNERLOOP < a && INNERLOOP in m0
    requires m1 == m0[a := if p.question then X_QDO else X_DO][INNERLOOP := a + 1]
    requires Compiled(p.body, a + 2, m1, m2, e)
    requires m3 == m2[e := X_LOOP][e + 1 := a + 1 + 2 - (e + 2)][a + 1 := e + 2 - (a + 1)][INNERLOOP := m0[INNERLOOP]]
    ensures Compiled(p, a, m0, m3, e + 2)
  {
    var x := if p.question then X_QDO else X_DO;
    DoCells(Code(p.body, a + 2, a + 1), x, a, m0, m1, e, m2, m3);
  }

  lemma DoCells(c: seq<int>, x: int, a: int, m0: Memory, m1: Memory, e: int, m2: Memory, m3: Memory)
    requires INNERLOOP < a && INNERLOOP in m0
    requires m1 == m0[a := x][INNERLOOP := a + 1]
    requires Laid(c, a + 2, m1, m2, e)
    requires m3 == m2[e := X_LOOP][e + 1 := a + 1 + 2 - (e + 2)][a + 1 := e + 2 - (a + 1)][INNERLOOP := m0[INNERLOOP]]
    ensures Laid([x, |c| + 3] + c + [X_LOOP, -(|c| + 1)], a, m0, m3, e + 2)
  {
    var h1, h2 := [x, |c| + 3], [X_LOOP, -(|c| + 1)];
    assert Installed(m3, a, h1) && Installed(m3, a + 2, c) && Installed(m3, e, h2);
    hide Installed;
    InstalledConcat(m3, a, h1, c);
    InstalledConcat(m3, a, h1 + c, h2);
  }

  // How often each construct stores to each cell.

  lemma ThenStored(w0: multiset<int>, w1: multiset<int>, w2: multiset<int>, a: int, b: int, e: int)
    requires INNERLOOP < a <= b <= e && StoredOnce(w0, w1, a, b) && StoredOnce(w1, w2, b, e)
    ensures StoredOnce(w0, w2, a, e)
  {}

  lemma PatchedStored(w0: multiset<int>, w1: multiset<int>, w2: multiset<int>, w3: multiset<int>, a: int, e: int, k: int)
    requires a + 2 <= e && k == a + 1
    requires w1 == w0 + multiset{a} && StoredOnce(w1, w2, a + 2, e) && w3 == w2 + multiset{k}
    requires a > INNERLOOP
    ensures StoredOnce(w0, w3, a, e)
  {}

  lemma PairStored(w0: multiset<int>, w1: multiset<int>, a: int)
    requires w1 == w0 + multiset{a} + multiset{a + 1}
    ensures StoredOnce(w0, w1, a, a + 2)
  {}

  lemma WhileStored(w0: multiset<int>, w1: multiset<int>, w2: multiset<int>, w3: multiset<int>, w4: multiset<int>, a: int, b: int, e: int)
    requires INNERLOOP < a <= b && b + 2 <= e && StoredOnce(w0, w1, a, b) && w2 == w1 + multiset{b}
    requires StoredOnce(w2, w3, b + 2, e) && w4 == w3 + multiset{e} + multiset{e + 1} + multiset{b + 1}
    ensures StoredOnce(w0, w4, a, e + 2)
  {
    hide StoredOnce;
    var w := w3 + multiset{b + 1};
    PatchedStored(w1, w2, w3, w, b, e, b + 1);
    PairStored(w, w4, e);
    ThenStored(w1, w, w4, b, e, e + 2);
    ThenStored(w0, w1, w4, a, b, e + 2);
  }

  /** Stores to the scratch cell do not count. */
  lemma ScratchStored(w0: multiset<int>, w1: multiset<int>, a: int, e: int)
    requires INNERLOOP < a && StoredOnce(w0 + multiset{INNERLOOP}, w1, a, e)
    ensures StoredOnce(w0, w1, a, e)
  {}

  lemma ScratchAfter(w0: multiset<int>, w1: multiset<int>, a: int, e: int)
    requires INNERLOOP < a && StoredOnce(w0, w1, a, e)
    ensures StoredOnce(w0, w1 + multiset{INNERLOOP}, a, e)
  {}

  lemma DoStored(w0: multiset<int>, w1: multiset<int>, w2: multiset<int>, w3: multiset<int>, a: int, e: int)
    requires INNERLOOP < a && a + 2 <= e && w1 == w0 + multiset{a} + multiset{INNERLOOP}
    requires StoredOnce(w1, w2, a + 2, e) && w3 == w2 + multiset{e} + multiset{e + 1} + multiset{a + 1} + multiset{INNERLOOP}
    ensures StoredOnce(w0, w3, a, e + 2)
  {
    hide StoredOnce;
    var v1, v2, v3 := w0 + multiset{a}, w2 + multiset{a + 1}, w2 + multiset{a + 1} + multiset{e} + multiset{e + 1};
    ScratchStored(v1, w2, a + 2, e);
    PatchedStored(w0, v1, w2, v2, a, e, a + 1);
    PairStored(v2, v3, e);
    ThenStored(w0, v2, v3, a, e, e + 2);
    ScratchAfter(w0, v3, a, e + 2);
    assert v3 + multiset{INNERLOOP} == w3;
  }
}
