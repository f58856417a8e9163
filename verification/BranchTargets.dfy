/** Where the branches of compiled code go. */
module BranchTargets {
  import opened VirtualMachine
  import opened ControlFlow
  import opened StructuredSemantics

  predicate IsDo(x: int) {
    x == X_DO || x == X_QDO
  }

  predicate IsLeave(x: int) {
    x == X_LEAVE || x == X_QLEAVE
  }

  /** Reading the code at a, loop by loop: every branch lands in [lo, hi]; the body of a loop
      is code of its own, whose branches stay in it; and every LEAVE names the operand cell d
      of the loop it is read in. */
  predicate Targets(c: seq<int>, a: int, lo: int, hi: int, d: int)
    decreases |c|
  {
    if c == [] then true
    else if !IsControl(c[0]) then Targets(c[1..], a + 1, lo, hi, d)
    else if |c| < 2 then false
    else if IsDo(c[0]) then
      var e := c[1] + 1;
      4 <= e <= |c| && Targets(c[2..e], a + 2, a + 2, a + e, a + 1) && Targets(c[e..], a + e, lo, hi, d)
    else OperandOk(c[0], c[1], a, lo, hi, d) && Targets(c[2..], a + 2, lo, hi, d)
  }

  predicate OperandOk(x: int, y: int, a: int, lo: int, hi: int, d: int) {
    if x == X_LIT then true
    else if IsLeave(x) then y == d
    else lo <= a + 1 + y <= hi
  }

  lemma DropConcat(c1: seq<int>, c2: seq<int>, k: nat)
    requires k <= |c1|
    ensures (c1 + c2)[k..] == c1[k..] + c2
  {}

  lemma {:induction false} TargetsConcat(c1: seq<int>, c2: seq<int>, a: int, lo: int, hi: int, d: int)
    requires Targets(c1, a, lo, hi, d) && Targets(c2, a + |c1|, lo, hi, d)
    ensures Targets(c1 + c2, a, lo, hi, d)
    decreases |c1|
  {
    hide Targets;
    if c1 == [] {
      assert c1 + c2 == c2;
    } else if IsDo(c1[0]) {
      var e := LoopLength(c1, a, lo, hi, d);
      TargetsConcat(c1[e..], c2, a + e, lo, hi, d);
      LoopConcat(c1, c2, a, lo, hi, d, e);
    } else {
      TargetsTail(c1, a, lo, hi, d);
      TargetsConcat(c1[Width(c1[0])..], c2, a + Width(c1[0]), lo, hi, d);
      TailConcat(c1, c2, a, lo, hi, d);
    }
  }

  lemma LoopLength(c: seq<int>, a: int, lo: int, hi: int, d: int) returns (e: int)
    requires Targets(c, a, lo, hi, d) && c != [] && IsDo(c[0])
    ensures 4 <= e <= |c| && e == c[1] + 1 && Targets(c[2..e], a + 2, a + 2, a + e, a + 1) && Targets(c[e..], a + e, lo, hi, d)
  {
    e := c[1] + 1;
  }

  lemma LoopTargets(c: seq<int>, a: int, lo: int, hi: int, d: int, e: int)
    requires 4 <= e <= |c| && IsDo(c[0]) && e == c[1] + 1
    requires Targets(c[2..e], a + 2, a + 2, a + e, a + 1) && Targets(c[e..], a + e, lo, hi, d)
    ensures Targets(c, a, lo, hi, d)
  {}

  lemma LoopConcat(c1: seq<int>, c2: seq<int>, a: int, lo: int, hi: int, d: int, e: int)
    requires 4 <= e <= |c1| && IsDo(c1[0]) && e == c1[1] + 1
    requires Targets(c1[2..e], a + 2, a + 2, a + e, a + 1) && Targets(c1[e..] + c2, a + e, lo, hi, d)
    ensures Targets(c1 + c2, a, lo, hi, d)
  {
    hide Targets;
    DropConcat(c1, c2, e);
    assert (c1 + c2)[2..e] == c1[2..e];
    LoopTargets(c1 + c2, a, lo, hi, d, e);
  }

  lemma TailConcat(c1: seq<int>, c2: seq<int>, a: int, lo: int, hi: int, d: int)
    requires Targets(c1, a, lo, hi, d) && c1 != [] && !IsDo(c1[0]) && Width(c1[0]) <= |c1|
    requires Targets(c1[Width(c1[0])..] + c2, a + Width(c1[0]), lo, hi, d)
    ensures Targets(c1 + c2, a, lo, hi, d)
  {
    DropConcat(c1, c2, Width(c1[0]));
  }

  /** A control primitive with its operand. */
  lemma TargetsPair(x: int, y: int, a: int, lo: int, hi: int, d: int)
    requires IsControl(x) && !IsDo(x) && OperandOk(x, y, a, lo, hi, d)
    ensures Targets([x, y], a, lo, hi, d)
  {
    assert [x, y][2..] == [];
  }

  lemma TargetsBranch(x: int, y: int, a: int, lo: int, hi: int, d: int)
    requires (x == X_BRANCH || x == X_0BRANCH || x == X_LOOP) && lo <= a + 1 + y <= hi
    ensures Targets([x, y], a, lo, hi, d)
  {
    TargetsPair(x, y, a, lo, hi, d);
  }

  lemma TargetsWord(x: int, a: int, lo: int, hi: int, d: int)
    requires !IsControl(x)
    ensures Targets([x], a, lo, hi, d)
  {
    assert [x][1..] == [];
  }

  lemma TargetsFour(c1: seq<int>, c2: seq<int>, c3: seq<int>, c4: seq<int>, a: int, lo: int, hi: int, d: int)
    requires Targets(c1, a, lo, hi, d) && Targets(c2, a + |c1|, lo, hi, d)
    requires Targets(c3, a + |c1| + |c2|, lo, hi, d) && Targets(c4, a + |c1| + |c2| + |c3|, lo, hi, d)
    ensures Targets(c1 + c2 + c3 + c4, a, lo, hi, d)
  {
    TargetsConcat(c1, c2, a, lo, hi, d);
    TargetsConcat(c1 + c2, c3, a, lo, hi, d);
    TargetsConcat(c1 + c2 + c3, c4, a, lo, hi, d);
  }

  /** Every branch of a program's code stays inside it, and inside its loop. */
  lemma {:induction false} TargetsInside(p: Program, a: int, d: int, inLoop: bool, lo: int, hi: int)
    requires WellFormed(p, inLoop) && lo <= a && After(p, a, d) <= hi
    ensures Targets(Code(p, a, d), a, lo, hi, d)
    decreases p, 1
  {
    match p {
      case Nothing =>
      case Word(x) => TargetsWord(x, a, lo, hi, d);
      case Literal(n) => TargetsPair(X_LIT, n, a, lo, hi, d);
      case Leave => TargetsPair(X_LEAVE, d, a, lo, hi, d);
      case QLeave => TargetsPair(X_QLEAVE, d, a, lo, hi, d);
      case Then(_, _) => TargetsOfThen(p, a, d, inLoop, lo, hi);
      case If(_) => TargetsOfIf(p, a, d, inLoop, lo, hi);
      case IfElse(_, _) => TargetsOfIfElse(p, a, d, inLoop, lo, hi);
      case BeginUntil(_) => TargetsOfBegin(p, a, d, inLoop, lo, hi);
      case BeginAgain(_) => TargetsOfBegin(p, a, d, inLoop, lo, hi);
      case BeginWhileRepeat(_, _) => TargetsOfWhile(p, a, d, inLoop, lo, hi);
      case DoLoop(_, _) => TargetsOfDo(p, a, d, inLoop, lo, hi);
    }
  }

  lemma TargetsOfThen(p: Program, a: int, d: int, inLoop: bool, lo: int, hi: int)
    requires p.Then?
    requires WellFormed(p, inLoop) && lo <= a && After(p, a, d) <= hi
    ensures Targets(Code(p, a, d), a, lo, hi, d)
    decreases p, 0
  {
    hide Targets, OperandOk, IsDo, IsLeave;
    TargetsInside(p.first, a, d, inLoop, lo, hi);
    TargetsInside(p.second, After(p.first, a, d), d, inLoop, lo, hi);
    TargetsConcat(Code(p.first, a, d), Code(p.second, After(p.first, a, d), d), a, lo, hi, d);
  }

  lemma TargetsOfIf(p: Program, a: int, d: int, inLoop: bool, lo: int, hi: int)
    requires p.If?
    requires WellFormed(p, inLoop) && lo <= a && After(p, a, d) <= hi
    ensures Targets(Code(p, a, d), a, lo, hi, d)
    decreases p, 0
  {
    hide Targets, OperandOk, IsDo, IsLeave;
    var c := Code(p.yes, a + 2, d);
    TargetsInside(p.yes, a + 2, d, inLoop, lo, hi);
    TargetsBranch(X_0BRANCH, |c| + 1, a, lo, hi, d);
    TargetsConcat([X_0BRANCH, |c| + 1], c, a, lo, hi, d);
  }

  lemma TargetsOfIfElse(p: Program, a: int, d: int, inLoop: bool, lo: int, hi: int)
    requires p.IfElse?
    requires WellFormed(p, inLoop) && lo <= a && After(p, a, d) <= hi
    ensures Targets(Code(p, a, d), a, lo, hi, d)
    decreases p, 0
  {
    hide Targets, Code, WellFormed;
    IfElseCode(p, a, d);
    IfElseFormed(p, inLoop);
    var c1 := Code(p.yes, a + 2, d);
    var c2 := Code(p.no, a + |c1| + 4, d);
    TargetsInside(p.yes, a + 2, d, inLoop, lo, hi);
    TargetsInside(p.no, a + |c1| + 4, d, inLoop, lo, hi);
    IfElseTargets(c1, c2, a, lo, hi, d);
  }

  lemma IfElseTargets(c1: seq<int>, c2: seq<int>, a: int, lo: int, hi: int, d: int)
    requires Targets(c1, a + 2, lo, hi, d) && Targets(c2, a + |c1| + 4, lo, hi, d) && lo <= a && a + |c1| + |c2| + 4 <= hi
    ensures Targets([X_0BRANCH, |c1| + 3] + c1 + [X_BRANCH, |c2| + 1] + c2, a, lo, hi, d)
  {
    hide Targets;
    TargetsBranch(X_0BRANCH, |c1| + 3, a, lo, hi, d);
    TargetsBranch(X_BRANCH, |c2| + 1, a + 2 + |c1|, lo, hi, d);
    TargetsFour([X_0BRANCH, |c1| + 3], c1, [X_BRANCH, |c2| + 1], c2, a, lo, hi, d);
  }

  lemma TargetsOfBegin(p: Program, a: int, d: int, inLoop: bool, lo: int, hi: int)
    requires p.BeginUntil? || p.BeginAgain?
    requires WellFormed(p, inLoop) && lo <= a && After(p, a, d) <= hi
    ensures Targets(Code(p, a, d), a, lo, hi, d)
    decreases p, 0
  {
    hide Targets, OperandOk, IsDo, IsLeave;
    var c, x := Code(p.body, a, d), if p.BeginUntil? then X_0BRANCH else X_BRANCH;
    TargetsInside(p.body, a, d, inLoop, lo, hi);
    TargetsBranch(x, -(|c| + 1), a + |c|, lo, hi, d);
    TargetsConcat(c, [x, -(|c| + 1)], a, lo, hi, d);
  }

  lemma TargetsOfWhile(p: Program, a: int, d: int, inLoop: bool, lo: int, hi: int)
    requires p.BeginWhileRepeat?
    requires WellFormed(p, inLoop) && lo <= a && After(p, a, d) <= hi
    ensures Targets(Code(p, a, d), a, lo, hi, d)
    decreases p, 0
  {
    hide Targets, Code, WellFormed;
    WhileCode(p, a, d);
    WhileFormed(p, inLoop);
    var c1 := Code(p.test, a, d);
    var c2 := Code(p.body, a + |c1| + 2, d);
    TargetsInside(p.test, a, d, inLoop, lo, hi);
    TargetsInside(p.body, a + |c1| + 2, d, inLoop, lo, hi);
    WhileTargets(c1, c2, a, lo, hi, d);
  }

  lemma WhileTargets(c1: seq<int>, c2: seq<int>, a: int, lo: int, hi: int, d: int)
    requires Targets(c1, a, lo, hi, d) && Targets(c2, a + |c1| + 2, lo, hi, d) && lo <= a && a + |c1| + |c2| + 4 <= hi
    ensures Targets(c1 + [X_0BRANCH, |c2| + 3] + c2 + [X_BRANCH, -(|c1| + |c2| + 3)], a, lo, hi, d)
  {
    hide Targets;
    TargetsBranch(X_0BRANCH, |c2| + 3, a + |c1|, lo, hi, d);
    TargetsBranch(X_BRANCH, -(|c1| + |c2| + 3), a + |c1| + 2 + |c2|, lo, hi, d);
    TargetsFour(c1, [X_0BRANCH, |c2| + 3], c2, [X_BRANCH, -(|c1| + |c2| + 3)], a, lo, hi, d);
  }

  lemma TargetsOfDo(p: Program, a: int, d: int, inLoop: bool, lo: int, hi: int)
    requires p.DoLoop?
    requires WellFormed(p, inLoop) && lo <= a && After(p, a, d) <= hi
    ensures Targets(Code(p, a, d), a, lo, hi, d)
    decreases p, 0
  {
    hide Targets, OperandOk, IsDo, IsLeave;
    var c, x := Code(p.body, a + 2, a + 1), if p.question then X_QDO else X_DO;
    var loop := [X_LOOP, -(|c| + 1)];
    TargetsInside(p.body, a + 2, a + 1, true, a + 2, a + |c| + 4);
    TargetsBranch(X_LOOP, -(|c| + 1), a + 2 + |c|, a + 2, a + |c| + 4, a + 1);
    TargetsConcat(c, loop, a + 2, a + 2, a + |c| + 4, a + 1);
    TargetsLoop(x, c + loop, a, lo, hi, d);
    assert [x, |c| + 3] + (c + loop) == [x, |c| + 3] + c + loop;
  }

  lemma TargetsLoop(x: int, body: seq<int>, a: int, lo: int, hi: int, d: int)
    requires (x == X_DO || x == X_QDO) && 2 <= |body| && Targets(body, a + 2, a + 2, a + 2 + |body|, a + 1)
    ensures Targets([x, |body| + 1] + body, a, lo, hi, d)
  {
    var c := [x, |body| + 1] + body;
    assert c[2..|body| + 2] == body && c[|body| + 2..] == [];
  }

  // ---- instruction by instruction --------------------------------------------------------

  function Width(x: int): nat {
    if IsControl(x) then 2 else 1
  }

  /** An instruction starts at index i. */
  predicate InstrAt(c: seq<int>, i: int)
    decreases |c|
  {
    0 <= i < |c| && (i == 0 || (Width(c[0]) <= i && InstrAt(c[Width(c[0])..], i - Width(c[0]))))
  }

  /** The last instruction ends where the code does. */
  predicate Whole(c: seq<int>)
    decreases |c|
  {
    c == [] || (Width(c[0]) <= |c| && Whole(c[Width(c[0])..]))
  }

  lemma {:induction false} WholeConcat(c1: seq<int>, c2: seq<int>)
    requires Whole(c1) && Whole(c2)
    ensures Whole(c1 + c2)
    decreases |c1|
  {
    if c1 == [] {
      assert c1 + c2 == c2;
    } else {
      WholeConcat(c1[Width(c1[0])..], c2);
      DropConcat(c1, c2, Width(c1[0]));
    }
  }

  /** The instructions of two pieces of code are those of the first, then those of the second. */
  lemma {:induction false} InstrConcat(c1: seq<int>, c2: seq<int>, i: int)
    requires Whole(c1)
    ensures InstrAt(c1 + c2, i) <==> if i < |c1| then InstrAt(c1, i) else InstrAt(c2, i - |c1|)
    decreases |c1|
  {
    var c := c1 + c2;
    if c1 == [] {
      assert c == c2;
    } else {
      var k := Width(c1[0]);
      InstrConcat(c1[k..], c2, i - k);
      DropConcat(c1, c2, k);
    }
  }

  /** A loop whose DO is at j, with its exit; the code between is its body and LOOP. */
  predicate LoopAt(c: seq<int>, j: int) {
    InstrAt(c, j) && IsDo(c[j]) && 0 <= j < |c| - 1
  }

  function Exit(c: seq<int>, j: int): int
    requires LoopAt(c, j)
  {
    j + 1 + c[j + 1]
  }

  /** The instruction at i lies between the DO at j and the loop's exit. */
  predicate InBody(c: seq<int>, j: int, i: int) {
    LoopAt(c, j) && j + 2 <= i < Exit(c, j)
  }

  /** j is the innermost loop around i. */
  ghost predicate Innermost(c: seq<int>, j: int, i: int) {
    InBody(c, j, i) && forall k :: InBody(c, k, i) ==> k <= j
  }

  lemma Split(c: seq<int>, e: int)
    requires 2 <= e <= |c|
    ensures c[2..] == c[2..e] + c[e..]
  {}

  lemma {:induction false} TargetsWhole(c: seq<int>, a: int, lo: int, hi: int, d: int)
    requires Targets(c, a, lo, hi, d)
    ensures Whole(c)
    decreases |c|
  {
    hide OperandOk;
    if c == [] {
    } else {
      if IsDo(c[0]) {
        var e := c[1] + 1;
        TargetsWhole(c[2..e], a + 2, a + 2, a + e, a + 1);
        TargetsWhole(c[e..], a + e, lo, hi, d);
        Split(c, e);
        WholeConcat(c[2..e], c[e..]);
      } else {
        TargetsWhole(c[Width(c[0])..], a + Width(c[0]), lo, hi, d);
      }
    }
  }

  lemma {:induction false} OperandFits(c: seq<int>, i: int)
    requires Whole(c) && InstrAt(c, i) && IsControl(c[i])
    ensures i + 1 < |c|
    decreases |c|
  {
    if i == 0 {
    } else {
      OperandFits(c[Width(c[0])..], i - Width(c[0]));
    }
  }

  /** Past an instruction that is no DO, the loops are those of the rest. */
  lemma TailBody(c: seq<int>, j: int, i: int)
    requires c != [] && !IsDo(c[0]) && Width(c[0]) <= |c|
    ensures var k := Width(c[0]); InBody(c, j, i) <==> InBody(c[k..], j - k, i - k)
  {}

  /** A loop's code: DO with its operand, the body with LOOP, the rest. */
  ghost predicate LoopCode(c: seq<int>, a: int, lo: int, hi: int, d: int) {
    Targets(c, a, lo, hi, d) && c != [] && IsDo(c[0])
  }

  lemma LoopParts(c: seq<int>, a: int, lo: int, hi: int, d: int, i: int)
    requires LoopCode(c, a, lo, hi, d)
    ensures
      var e := c[1] + 1;
      && 4 <= e <= |c| && Targets(c[2..e], a + 2, a + 2, a + e, a + 1) && Targets(c[e..], a + e, lo, hi, d)
      && Whole(c[2..e]) && Whole(c[e..]) && LoopAt(c, 0) && Exit(c, 0) == e
      && (InstrAt(c, i) ==> i == 0 || 2 <= i < |c|)
      && (InstrAt(c, i) <==> i == 0 || if i < e then InstrAt(c[2..e], i - 2) else InstrAt(c[e..], i - e))
  {
    hide Targets, InstrAt, Whole;
    var e := LoopLength(c, a, lo, hi, d);
    TargetsWhole(c[2..e], a + 2, a + 2, a + e, a + 1);
    TargetsWhole(c[e..], a + e, lo, hi, d);
    InstrConcat(c[2..e], c[e..], i - 2);
    Split(c, e);
    InstrFirst(c, i);
    InstrFirst(c, 0);
    InstrInside(c[2..e], i - 2);
    InstrInside(c[e..], i - e);
  }

  lemma InstrFirst(c: seq<int>, i: int)
    requires c != [] && Width(c[0]) <= |c|
    ensures InstrAt(c, i) <==> 0 <= i < |c| && (i == 0 || (Width(c[0]) <= i && InstrAt(c[Width(c[0])..], i - Width(c[0]))))
  {}

  lemma InstrInside(c: seq<int>, i: int)
    ensures InstrAt(c, i) ==> 0 <= i < |c|
  {}

  lemma TargetsTail(c: seq<int>, a: int, lo: int, hi: int, d: int)
    requires Targets(c, a, lo, hi, d) && c != [] && !IsDo(c[0])
    ensures Width(c[0]) <= |c| && Targets(c[Width(c[0])..], a + Width(c[0]), lo, hi, d)
  {}

  /** Every loop ends inside the code. */
  lemma {:induction false} LoopsFit(c: seq<int>, a: int, lo: int, hi: int, d: int, j: int)
    requires Targets(c, a, lo, hi, d) && LoopAt(c, j)
    ensures j + 4 <= Exit(c, j) <= |c|
    decreases |c|
  {
    hide Targets;
    if IsDo(c[0]) {
      LoopsFitInLoop(c, a, lo, hi, d, j);
    } else {
      var k := Width(c[0]);
      TargetsTail(c, a, lo, hi, d);
      LoopsFit(c[k..], a + k, lo, hi, d, j - k);
    }
  }

  lemma LoopsFitInLoop(c: seq<int>, a: int, lo: int, hi: int, d: int, j: int)
    requires LoopCode(c, a, lo, hi, d) && LoopAt(c, j)
    ensures j + 4 <= Exit(c, j) <= |c|
    decreases |c|, 0
  {
    hide Targets, InstrAt, Whole;
    LoopParts(c, a, lo, hi, d, j);
    var e := c[1] + 1;
    if j == 0 {
    } else if j < e {
      OperandFits(c[2..e], j - 2);
      LoopsFit(c[2..e], a + 2, a + 2, a + e, a + 1, j - 2);
    } else {
      LoopsFit(c[e..], a + e, lo, hi, d, j - e);
    }
  }

  /** Inside a loop's code the loops are it and those of its body; past it, those of the rest. */
  lemma LoopBody(c: seq<int>, a: int, lo: int, hi: int, d: int, j: int, i: int)
    requires LoopCode(c, a, lo, hi, d) && 2 <= i
    ensures
      var e := c[1] + 1;
      && 4 <= e <= |c|
      && (InBody(c, j, i) <==> if i < e then j == 0 || InBody(c[2..e], j - 2, i - 2) else InBody(c[e..], j - e, i - e))
  {
    hide Targets, InstrAt, Whole;
    LoopParts(c, a, lo, hi, d, j);
    var e := c[1] + 1;
    if 2 <= j < e && InstrAt(c, j) && IsDo(c[j]) {
      OperandFits(c[2..e], j - 2);
      LoopsFit(c[2..e], a + 2, a + 2, a + e, a + 1, j - 2);
    }
    SameBody(c, c[2..e], 2, j, i);
    SameBody(c, c[e..], e, j, i);
    InstrInside(c[2..e], j - 2);
  }

  /** Loops of a piece of the code that starts at k are loops of the code. */
  lemma SameBody(c: seq<int>, part: seq<int>, k: nat, j: int, i: int)
    requires k + |part| <= |c| && part == c[k..k + |part|]
    requires k <= j < k + |part| - 1 ==> (InstrAt(c, j) <==> InstrAt(part, j - k))
    ensures k <= j < k + |part| - 1 ==> (InBody(c, j, i) <==> InBody(part, j - k, i - k))
  {
    hide InstrAt;
  }

  /** Every LEAVE names the operand of the innermost loop around it, or of the loop outside the
      code if there is none; j is that loop, or -1. */
  lemma {:induction false} LeaveNames(c: seq<int>, a: int, lo: int, hi: int, d: int, i: int) returns (j: int)
    requires Targets(c, a, lo, hi, d) && InstrAt(c, i) && IsLeave(c[i])
    ensures i + 1 < |c| && Names(c, a, d, i, j)
    decreases |c|
  {
    if IsDo(c[0]) {
      j := LeaveInLoop(c, a, lo, hi, d, i);
    } else if i == 0 {
      j := LeaveFirst(c, a, lo, hi, d);
    } else {
      j := LeaveInTail(c, a, lo, hi, d, i);
    }
  }

  lemma LeaveFirst(c: seq<int>, a: int, lo: int, hi: int, d: int) returns (j: int)
    requires Targets(c, a, lo, hi, d) && c != [] && IsLeave(c[0])
    ensures Names(c, a, d, 0, j)
  {
    j := -1;
  }

  lemma LeaveInTail(c: seq<int>, a: int, lo: int, hi: int, d: int, i: int) returns (j: int)
    requires Targets(c, a, lo, hi, d) && InstrAt(c, i) && IsLeave(c[i]) && i != 0 && !IsDo(c[0])
    ensures i + 1 < |c| && Names(c, a, d, i, j)
    decreases |c|, 0
  {
    hide Targets, InBody;
    var k: int := Width(c[0]);
    TargetsTail(c, a, lo, hi, d);
    var j' := LeaveNames(c[k..], a + k, lo, hi, d, i - k);
    j := if j' == -1 then -1 else j' + k;
    forall x: int ensures InBody(c, x, i) <==> InBody(c[k..], x - k, i - k) {
      TailBody(c, x, i);
    }
    LiftRest(c, k, a, d, i, j');
  }

  lemma LeaveInLoop(c: seq<int>, a: int, lo: int, hi: int, d: int, i: int) returns (j: int)
    requires LoopCode(c, a, lo, hi, d) && InstrAt(c, i) && IsLeave(c[i])
    ensures i + 1 < |c| && Names(c, a, d, i, j)
    decreases |c|, 0
  {
    hide Targets, InstrAt, Whole, InBody, Names;
    LoopParts(c, a, lo, hi, d, i);
    var e := c[1] + 1;
    if i < e {
      var j' := LeaveNames(c[2..e], a + 2, a + 2, a + e, a + 1, i - 2);
      j := if j' == -1 then 0 else j' + 2;
      forall x: int ensures InBody(c, x, i) <==> x == 0 || InBody(c[2..e], x - 2, i - 2) {
        LoopBody(c, a, lo, hi, d, x, i);
      }
      LiftBody(c, e, a, d, i, j');
    } else {
      var j' := LeaveNames(c[e..], a + e, lo, hi, d, i - e);
      j := if j' == -1 then -1 else j' + e;
      forall x: int ensures InBody(c, x, i) <==> InBody(c[e..], x - e, i - e) {
        LoopBody(c, a, lo, hi, d, x, i);
      }
      LiftRest(c, e, a, d, i, j');
    }
  }

  /** The LEAVE at i names the loop at j, its innermost, or if j is -1 the loop outside. */
  ghost predicate Names(c: seq<int>, a: int, d: int, i: int, j: int) {
    && 0 <= i && i + 1 < |c|
    && if j == -1 then c[i + 1] == d && forall k :: !InBody(c, k, i) else j >= 0 && Innermost(c, j, i) && c[i + 1] == a + j + 1
  }

  lemma LiftRest(c: seq<int>, k: int, a: int, d: int, i: int, j: int)
    requires 0 < k <= i < |c| && Names(c[k..], a + k, d, i - k, j)
    requires forall x :: InBody(c, x, i) <==> InBody(c[k..], x - k, i - k)
    ensures Names(c, a, d, i, if j == -1 then -1 else j + k)
  {
    hide InBody;
    assert j >= 0 ==> InBody(c, j + k, i);
  }

  lemma LiftBody(c: seq<int>, e: int, a: int, d: int, i: int, j: int)
    requires 2 <= i < e <= |c| && Names(c[2..e], a + 2, a + 1, i - 2, j)
    requires forall x :: InBody(c, x, i) <==> x == 0 || InBody(c[2..e], x - 2, i - 2)
    ensures Names(c, a, d, i, if j == -1 then 0 else j + 2)
  {
    assert InBody(c, 0, i);
    assert j >= 0 ==> InBody(c, j + 2, i);
  }

  /** Every other branch, and every loop's exit, lands inside the code. */
  lemma {:induction false} BranchesLand(c: seq<int>, a: int, lo: int, hi: int, d: int, i: int)
    requires Targets(c, a, lo, hi, d) && lo <= a && a + |c| <= hi
    requires InstrAt(c, i) && IsControl(c[i]) && c[i] != X_LIT && !IsLeave(c[i])
    ensures i + 1 < |c| && lo <= a + i + 1 + c[i + 1] <= hi
    decreases |c|
  {
    if i == 0 {
    } else {
      hide Targets;
      if IsDo(c[0]) {
        BranchesLandInLoop(c, a, lo, hi, d, i);
      } else {
        TargetsTail(c, a, lo, hi, d);
        BranchesLand(c[Width(c[0])..], a + Width(c[0]), lo, hi, d, i - Width(c[0]));
      }
    }
  }

  lemma BranchesLandInLoop(c: seq<int>, a: int, lo: int, hi: int, d: int, i: int)
    requires LoopCode(c, a, lo, hi, d) && lo <= a && a + |c| <= hi && i != 0
    requires InstrAt(c, i) && IsControl(c[i]) && c[i] != X_LIT && !IsLeave(c[i])
    ensures i + 1 < |c| && lo <= a + i + 1 + c[i + 1] <= hi
    decreases |c|, 0
  {
    hide Targets, InstrAt, Whole;
    LoopParts(c, a, lo, hi, d, i);
    var e := c[1] + 1;
    if i < e {
      BranchesLand(c[2..e], a + 2, a + 2, a + e, a + 1, i - 2);
    } else {
      BranchesLand(c[e..], a + e, lo, hi, d, i - e);
    }
  }

  /** Code of a closed program does not depend on any loop around it. */
  lemma {:induction false} ClosedCode(p: Program, a: int, d: int, d': int)
    requires WellFormed(p, false)
    ensures Code(p, a, d) == Code(p, a, d')
    decreases p, 1
  {
    match p {
      case Then(_, _) => ClosedThen(p, a, d, d');
      case If(p1) => ClosedCode(p1, a + 2, d, d');
      case IfElse(_, _) => ClosedIfElse(p, a, d, d');
      case BeginUntil(p1) => ClosedCode(p1, a, d, d');
      case BeginAgain(p1) => ClosedCode(p1, a, d, d');
      case BeginWhileRepeat(_, _) => ClosedWhile(p, a, d, d');
      case _ =>
    }
  }

  lemma ClosedThen(p: Program, a: int, d: int, d': int)
    requires p.Then? && WellFormed(p, false)
    ensures Code(p, a, d) == Code(p, a, d')
    decreases p, 0
  {
    ClosedCode(p.first, a, d, d');
    ClosedCode(p.second, After(p.first, a, d), d, d');
  }

  lemma ClosedIfElse(p: Program, a: int, d: int, d': int)
    requires p.IfElse? && WellFormed(p, false)
    ensures Code(p, a, d) == Code(p, a, d')
    decreases p, 0
  {
    hide Code, WellFormed;
    IfElseFormed(p, false);
    IfElseCode(p, a, d);
    IfElseCode(p, a, d');
    ClosedCode(p.yes, a + 2, d, d');
    ClosedCode(p.no, a + |Code(p.yes, a + 2, d)| + 4, d, d');
  }

  lemma ClosedWhile(p: Program, a: int, d: int, d': int)
    requires p.BeginWhileRepeat? && WellFormed(p, false)
    ensures Code(p, a, d) == Code(p, a, d')
    decreases p, 0
  {
    ClosedCode(p.test, a, d, d');
    ClosedCode(p.body, After(p.test, a, d) + 2, d, d');
  }

  /** In a closed program every LEAVE names the operand cell of the innermost loop around it,
      and where it lands, that cell's address plus the cell, is this loop's exit. */
  lemma LeavesLand(p: Program, a: int, d: int, i: int) returns (j: int)
    requires WellFormed(p, false) && InstrAt(Code(p, a, d), i) && IsLeave(Code(p, a, d)[i])
    ensures
      var c := Code(p, a, d);
      && i + 1 < |c| && Innermost(c, j, i) && LoopAt(c, j) && c[i + 1] == a + j + 1 && 0 <= c[i + 1] - a < |c|
      && a <= c[i + 1] + c[c[i + 1] - a] == a + Exit(c, j) <= After(p, a, d)
  {
    hide Code, Targets, InstrAt, Innermost, LoopAt, Exit, WellFormed;
    ClosedCode(p, a, d, d + 1);
    TargetsInside(p, a, d, false, a, After(p, a, d));
    TargetsInside(p, a, d + 1, false, a, After(p, a, d));
    j := LeaveLands(Code(p, a, d), a, d, i);
  }

  /** The same of code that is read the same inside two different loops. */
  lemma LeaveLands(c: seq<int>, a: int, d: int, i: int) returns (j: int)
    requires Targets(c, a, a, a + |c|, d) && Targets(c, a, a, a + |c|, d + 1) && InstrAt(c, i) && IsLeave(c[i])
    ensures
      && i + 1 < |c| && Innermost(c, j, i) && LoopAt(c, j) && c[i + 1] == a + j + 1 && 0 <= c[i + 1] - a < |c|
      && a <= c[i + 1] + c[c[i + 1] - a] == a + Exit(c, j) <= a + |c|
  {
    hide Targets, InstrAt, Names, Innermost, LoopAt, Exit;
    j := LeaveNames(c, a, a, a + |c|, d, i);
    var j' := LeaveNames(c, a, a, a + |c|, d + 1, i);
    OneName(c, a, d, i, j, j');
    LoopsFit(c, a, a, a + |c|, d, j);
  }

  /** A LEAVE that names the outer loop would name two. */
  lemma OneName(c: seq<int>, a: int, d: int, i: int, j: int, j': int)
    requires Names(c, a, d, i, j) && Names(c, a, d + 1, i, j')
    ensures i + 1 < |c| && Innermost(c, j, i) && c[i + 1] == a + j + 1
    ensures LoopAt(c, j) && 0 <= j && 0 <= c[i + 1] - a < |c| && c[i + 1] + c[c[i + 1] - a] == a + Exit(c, j)
  {
    hide InstrAt;
  }

  /** On the machine: LEAVE drops the loop's limit and index and goes to its exit. */
  lemma LeaveGoes(m: Memory, words: Words, p: Program, a: int, d: int, i: int, st: Stacks) returns (j: int)
    requires WellFormed(p, false) && Installed(m, a, Code(p, a, d)) && |st.r| >= 2
    requires InstrAt(Code(p, a, d), i) && Code(p, a, d)[i] == X_LEAVE
    ensures Innermost(Code(p, a, d), j, i) && LoopAt(Code(p, a, d), j)
    ensures Step(m, words, a + i, st) == Running(a + Exit(Code(p, a, d), j), st.Unloop())
  {
    hide WellFormed, Code, InstrAt, Innermost, LoopAt, Exit, Installed;
    j := LeavesLand(p, a, d, i);
    InstrInside(Code(p, a, d), i);
    InstalledAt(m, a, Code(p, a, d), i);
    InstalledAt(m, a, Code(p, a, d), i + 1);
    InstalledAt(m, a, Code(p, a, d), j + 1);
  }

  lemma InstalledAt(m: Memory, a: int, c: seq<int>, k: int)
    requires Installed(m, a, c) && 0 <= k < |c|
    ensures a + k in m && m[a + k] == c[k]
  {
    assert c[a + k - a] == c[k];
  }
}
