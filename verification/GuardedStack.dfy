/** The growable stacks of Post4: a block of cells with two guard cells at each end, and the
    stack words that work on it in place. */
module GuardedStack {

  const STACK_EXTRA := 16
  const SENTINEL := 0xdeadbeefcafebabe

  /** P4_ALIGN_SIZE with the stack's power of two. */
  function AlignSize(n: nat): (r: nat)
    ensures n <= r < n + STACK_EXTRA && r % STACK_EXTRA == 0
  {
    var x := n + STACK_EXTRA - 1;
    assert x == x / STACK_EXTRA * STACK_EXTRA + x % STACK_EXTRA;
    x / STACK_EXTRA * STACK_EXTRA
  }

  /** The word a stack program may perform. */
  datatype Operation = Push(x: int) | Drop | Dup | Swap | Pick | Roll

  /** Enough operands: PICK and ROLL take an index from the top and reach below it. */
  predicate Enough(s: seq<int>, op: Operation) {
    match op
    case Push(_) => true
    case Drop => |s| >= 1
    case Dup => |s| >= 1
    case Swap => |s| >= 2
    case Pick => |s| >= 2 && 0 <= s[|s| - 1] < |s| - 1
    case Roll => |s| >= 2 && 0 <= s[|s| - 1] < |s| - 1
  }

  /** What each word does to the sequence on the stack, bottom first. */
  function Apply(s: seq<int>, op: Operation): seq<int>
    requires Enough(s, op)
  {
    var n := |s|;
    match op
    case Push(x) => s + [x]
    case Drop => s[..n - 1]
    case Dup => s + [s[n - 1]]
    case Swap => s[..n - 2] + [s[n - 1], s[n - 2]]
    case Pick => s[..n - 1] + [s[n - 2 - s[n - 1]]]
    case Roll => var k := n - 2 - s[n - 1]; s[..k] + s[k + 1..n - 1] + [s[k]]
  }

  predicate CanRun(s: seq<int>, ops: seq<Operation>)
    decreases |ops|
  {
    ops == [] || (Enough(s, ops[0]) && CanRun(Apply(s, ops[0]), ops[1..]))
  }

  function ApplyAll(s: seq<int>, ops: seq<Operation>): seq<int>
    requires CanRun(s, ops)
    decreases |ops|
  {
    if ops == [] then s else ApplyAll(Apply(s, ops[0]), ops[1..])
  }

  /** A zero and a sentinel on either side of the stack's cells. */
  ghost predicate Guarded(block: array<int>, size: nat)
    reads block
  {
    && block.Length == size + 4
    && block[0] == 0 && block[1] == SENTINEL && block[size + 2] == SENTINEL && block[size + 3] == 0
  }

  class Stack {
    /** The allocated block; the stack's own cells start two cells in. */
    var block: array<int>
    var size: nat
    /** Index of the last element from the stack's base, -1 when empty. */
    var top: int

    ghost predicate Valid()
      reads this, block
    {
      -1 <= top < size && Guarded(block, size)
    }

    ghost function Contents(): (s: seq<int>)
      requires Valid()
      reads this, block
      ensures |s| == top + 1
    {
      block[2..top + 3]
    }

    constructor (need: nat)
      ensures Valid() && Contents() == [] && size == need && fresh(block)
    {
      block := new int[need + 4](_ => 0);
      size, top := need, -1;
      new;
      block[need + 2] := SENTINEL;
      block[1] := SENTINEL;
      block[need + 3] := 0;
      block[0] := 0;
    }

    /** p4AllocStack: afterwards there is room for need more cells; every live cell is kept and
        both guards are in place. */
    method AllocStack(more: nat)
      requires Valid()
      modifies this, block
      ensures Valid() && Contents() == old(Contents()) && top == old(top)
      ensures top + 1 + more <= size && size >= old(size)
      ensures block == old(block) || fresh(block)
      ensures old(top + 1 + more <= size) ==> block == old(block) && size == old(size)
      ensures old(top + 1 + more > size) ==> size == AlignSize(old(top + 1) + more)
    {
      hide AlignSize;
      var depth := top + 1;
      if depth + more <= size {
        return;
      }
      var need := AlignSize(depth + more);
      var grown := Grow(need);
      block := grown;
      size := need;
      top := depth - 1;
    }

    /** A larger block with the live cells and both guards. */
    method Grow(need: nat) returns (grown: array<int>)
      requires Valid() && size <= need
      ensures fresh(grown) && Guarded(grown, need) && grown[2..top + 3] == block[2..top + 3]
    {
      grown := Realloc(need + 4);
      grown[need + 2] := SENTINEL;
      grown[1] := SENTINEL;
      grown[need + 3] := 0;
      grown[0] := 0;
      SameMiddle(block, grown, top + 3);
    }

    lemma SameMiddle(a: array<int>, b: array<int>, end: nat)
      requires 2 <= end <= a.Length && end <= b.Length
      requires forall k :: 2 <= k < end ==> b[k] == a[k]
      ensures b[2..end] == a[2..end]
    {}

    /** realloc to a larger block, keeping what is there. */
    method Realloc(length: nat) returns (grown: array<int>)
      requires block.Length <= length
      ensures fresh(grown) && grown.Length == length
      ensures forall k :: 0 <= k < block.Length ==> grown[k] == block[k]
    {
      grown := new int[length](_ => 0);
      var k := 0;
      while k < block.Length
        invariant 0 <= k <= block.Length
        invariant forall j :: 0 <= j < k ==> grown[j] == block[j]
      {
        grown[k] := block[k];
        k := k + 1;
      }
    }

    /** A cell put on top, where there is room. */
    method PushCell(x: int)
      requires Valid() && top + 1 < size
      modifies `top, block
      ensures Valid() && Contents() == old(Contents()) + [x]
    {
      top := top + 1;
      block[top + 2] := x;
    }

    /** The top cell taken off. */
    method PopCell() returns (x: int)
      requires Valid() && top >= 0
      modifies `top
      ensures Valid() && old(Contents()) == Contents() + [x]
    {
      x := block[top + 2];
      top := top - 1;
    }

    /** Making room first, as every word that adds a cell does. */
    method GuardedPush(x: int)
      requires Valid()
      modifies this, block
      ensures Valid() && Contents() == old(Contents()) + [x] && (block == old(block) || fresh(block))
    {
      AllocStack(1);
      PushCell(x);
    }

    method PerformDrop()
      requires Valid() && top >= 0
      modifies `top
      ensures Valid() && Contents() == Apply(old(Contents()), Drop)
    {
      ghost var s := Contents();
      var x := PopCell();
      assert s[..|s| - 1] == Contents();
    }

    method PerformDup()
      requires Valid() && top >= 0
      modifies this, block
      ensures Valid() && Contents() == Apply(old(Contents()), Dup) && (block == old(block) || fresh(block))
    {
      var x := block[top + 2];
      assert x == Contents()[top];
      GuardedPush(x);
    }

    method PerformSwap()
      requires Valid() && top >= 1
      modifies `top, block
      ensures Valid() && Contents() == Apply(old(Contents()), Swap)
    {
      var x := PopCell();
      var w := block[top + 2];
      block[top + 2] := x;
      PushCell(w);
    }

    method PerformPick()
      requires Valid() && Enough(Contents(), Pick)
      modifies `top, block
      ensures Valid() && Contents() == Apply(old(Contents()), Pick)
    {
      var x := PopCell();
      var w := block[top + 2 - x];
      PushCell(w);
    }

    /** _roll: the cells above the chosen one move down one by one, then it goes on top. */
    method PerformRoll()
      requires Valid() && Enough(Contents(), Roll)
      modifies `top, block
      ensures Valid() && Contents() == Apply(old(Contents()), Roll)
    {
      hide Apply;
      ghost var s := Contents();
      var x := PopCell();
      ghost var t := Contents();
      RollIn(x);
      Rolled(s, t, Contents(), top - x);
    }

    method RollIn(x: int)
      requires Valid() && 0 <= x <= top
      modifies block
      ensures Valid() && RolledCells(old(Contents()), Contents(), top - x)
    {
      ghost var t := Contents();
      assert forall i :: 2 <= i < top + 3 ==> block[i] == t[i - 2];
      var w := block[top + 2 - x];
      MoveDown(x);
      block[top + 2] := w;
    }

    /** The u topmost cells each copied one place down, lowest first. */
    method MoveDown(u: int)
      requires Valid() && 0 <= u <= top
      modifies block
      ensures Valid()
      ensures forall i :: 2 <= i < top - u + 2 ==> block[i] == old(block[i])
      ensures forall i :: top - u + 2 <= i < top + 2 ==> block[i] == old(block[i + 1])
    {
      var x := u;
      while 0 < x
        invariant 0 <= x <= u && Valid()
        invariant forall i :: 2 <= i < top - u + 2 || top - x + 2 <= i <= top + 2 ==> block[i] == old(block[i])
        invariant forall i :: top - u + 2 <= i < top - x + 2 ==> block[i] == old(block[i + 1])
      {
        block[top + 2 - x] := block[top + 2 - (x - 1)];
        x := x - 1;
      }
    }

    method PerformOne(op: Operation)
      requires Valid() && Enough(Contents(), op)
      modifies this, block
      ensures Valid() && Contents() == Apply(old(Contents()), op) && (block == old(block) || fresh(block))
    {
      match op
      case Push(x) => GuardedPush(x);
      case Drop => PerformDrop();
      case Dup => PerformDup();
      case Swap => PerformSwap();
      case Pick => PerformPick();
      case Roll => PerformRoll();
    }

    /** Any run that never underflows does to the cells what it does to a sequence, however
        often the stack grows on the way, and leaves both guards intact. */
    method Perform(ops: seq<Operation>)
      requires Valid() && CanRun(Contents(), ops)
      modifies this, block
      ensures Valid() && Contents() == ApplyAll(old(Contents()), ops)
    {
      hide Apply, Enough;
      var i := 0;
      assert ops[0..] == ops;
      while i < |ops|
        invariant 0 <= i <= |ops| && Valid() && (block == old(block) || fresh(block))
        invariant CanRun(Contents(), ops[i..])
        invariant ApplyAll(Contents(), ops[i..]) == ApplyAll(old(Contents()), ops)
      {
        assert ops[i..][1..] == ops[i + 1..];
        PerformOne(ops[i]);
        i := i + 1;
      }
    }
  }

  /** DROP undoes whatever puts one cell on top: only that cell goes. */
  lemma DropUndoes(s: seq<int>, x: int)
    ensures Enough(s + [x], Drop) && Apply(s + [x], Drop) == s
    ensures CanRun(s, [Push(x), Drop]) && ApplyAll(s, [Push(x), Drop]) == s
  {
    assert (s + [x])[..|s|] == s;
    var ops := [Push(x), Drop];
    assert ops[1..] == [Drop] && [Drop][1..] == [];
    assert CanRun(s, []) && CanRun(s + [x], [Drop]);
  }

  /** PICK leaves in place what ROLL of the same depth would take away: dropping PICK's copy,
      rolling, gives the same top on the rest. */
  lemma PickCopiesWhatRollMoves(s: seq<int>, u: nat)
    requires u < |s|
    ensures Enough(s + [u], Pick) && Enough(s + [u], Roll)
    ensures
      var picked, rolled := Apply(s + [u], Pick), Apply(s + [u], Roll);
      && |picked| == |s| + 1 && |rolled| == |s|
      && picked[..|s|] == s && picked[|s|] == rolled[|s| - 1] == s[|s| - 1 - u]
  {
    assert (s + [u])[..|s|] == s;
  }

  /** The data and the return stack, each in its own block. */
  class Stacks {
    const ds: Stack
    const rs: Stack

    ghost predicate Valid()
      reads this, ds, rs, ds.block, rs.block
    {
      ds != rs && ds.Valid() && rs.Valid() && ds.block != rs.block
    }

    ghost function Contents(): Both
      requires Valid()
      reads this, ds, rs, ds.block, rs.block
    {
      Both(ds.Contents(), rs.Contents())
    }

    constructor (ds: Stack, rs: Stack)
      requires ds != rs && ds.Valid() && rs.Valid() && ds.block != rs.block
      ensures Valid() && this.ds == ds && this.rs == rs
    {
      this.ds, this.rs := ds, rs;
    }

    /** The top of one stack, if it has one, moves to the other, where room is made first. */
    method Transfer(from: Stack, to: Stack) returns (thrown: bool)
      requires Valid() && ((from == ds && to == rs) || (from == rs && to == ds))
      modifies from, to, to.block
      ensures Valid() && from.block == old(from.block) && (to.block == old(to.block) || fresh(to.block))
      ensures thrown <==> old(from.Contents()) == []
      ensures
        var x, y := old(from.Contents()), old(to.Contents());
        if thrown then from.Contents() == x && to.Contents() == y
        else from.Contents() == x[..|x| - 1] && to.Contents() == y + [x[|x| - 1]]
    {
      if from.top < 0 {
        return true;
      }
      var x := from.PopCell();
      to.GuardedPush(x);
      thrown := false;
    }

    /** Any run of stack words, >R and R> that never underflows moves cells between the two
        stacks as between two sequences; neither disturbs the other, however they grow. */
    method Perform(moves: seq<Move>)
      requires Valid() && CanMove(Contents(), moves)
      modifies ds, rs, ds.block, rs.block
      ensures Valid() && Contents() == MoveAll(old(Contents()), moves)
    {
      hide MayMove, Moved;
      var i := 0;
      assert moves[0..] == moves;
      while i < |moves|
        invariant 0 <= i <= |moves| && Valid()
        invariant ds.block == old(ds.block) || fresh(ds.block)
        invariant rs.block == old(rs.block) || fresh(rs.block)
        invariant CanMove(Contents(), moves[i..]) && MoveAll(Contents(), moves[i..]) == MoveAll(old(Contents()), moves)
      {
        assert moves[i..][1..] == moves[i + 1..];
        PerformMove(moves[i]);
        i := i + 1;
      }
    }

    method PerformMove(move: Move)
      requires Valid() && MayMove(Contents(), move)
      modifies ds, rs, ds.block, rs.block
      ensures Valid() && Contents() == Moved(old(Contents()), move)
      ensures (ds.block == old(ds.block) || fresh(ds.block)) && (rs.block == old(rs.block) || fresh(rs.block))
    {
      hide Enough, Apply;
      match move
      case OnData(op) => ds.PerformOne(op);
      case ToR => var _ := Transfer(ds, rs);
      case FromR => var _ := Transfer(rs, ds);
    }
  }

  /** The contents of both stacks, bottom first. */
  datatype Both = Both(ds: seq<int>, rs: seq<int>)

  /** A stack word on the data stack, >R or R>. */
  datatype Move = OnData(op: Operation) | ToR | FromR

  predicate MayMove(b: Both, move: Move) {
    match move
    case OnData(op) => Enough(b.ds, op)
    case ToR => b.ds != []
    case FromR => b.rs != []
  }

  function Moved(b: Both, move: Move): Both
    requires MayMove(b, move)
  {
    match move
    case OnData(op) => b.(ds := Apply(b.ds, op))
    case ToR => Both(b.ds[..|b.ds| - 1], b.rs + [b.ds[|b.ds| - 1]])
    case FromR => Both(b.ds + [b.rs[|b.rs| - 1]], b.rs[..|b.rs| - 1])
  }

  predicate CanMove(b: Both, moves: seq<Move>)
    decreases |moves|
  {
    moves == [] || (MayMove(b, moves[0]) && CanMove(Moved(b, moves[0]), moves[1..]))
  }

  function MoveAll(b: Both, moves: seq<Move>): Both
    requires CanMove(b, moves)
    decreases |moves|
  {
    if moves == [] then b else MoveAll(Moved(b, moves[0]), moves[1..])
  }

  /** What goes over to the return stack comes back, whatever happens on the data stack between,
      as long as that leaves the return stack alone. */
  lemma {:induction false} ThereAndBack(b: Both, ops: seq<Operation>)
    requires b.ds != [] && CanRun(b.ds[..|b.ds| - 1], ops)
    ensures
      var moves := [ToR] + Lifted(ops) + [FromR];
      && CanMove(b, moves)
      && MoveAll(b, moves) == Both(ApplyAll(b.ds[..|b.ds| - 1], ops) + [b.ds[|b.ds| - 1]], b.rs)
  {
    hide Enough, Apply, CanRun, ApplyAll, Moved, MayMove, CanMove, MoveAll;
    var n := |b.ds| - 1;
    var c := Both(b.ds[..n], b.rs + [b.ds[n]]);
    var d := Both(ApplyAll(c.ds, ops), c.rs);
    var moves := [ToR] + Lifted(ops) + [FromR];
    CrossingOver(b, d.ds);
    MoveOnce(d, [FromR]);
    assert [FromR][1..] == [];
    NoMoves(Moved(d, FromR));
    LiftedMoves(c, ops, [FromR]);
    assert moves[1..] == Lifted(ops) + [FromR];
    MoveOnce(b, moves);
  }

  /** The top cell goes over, and comes back onto whatever is on the data stack by then. */
  lemma CrossingOver(b: Both, ds: seq<int>)
    requires b.ds != []
    ensures
      var n := |b.ds| - 1;
      var c := Both(b.ds[..n], b.rs + [b.ds[n]]);
      && MayMove(b, ToR) && Moved(b, ToR) == c && MayMove(Both(ds, c.rs), FromR)
      && Moved(Both(ds, c.rs), FromR) == Both(ds + [b.ds[n]], b.rs)
  {
    hide Enough, Apply;
  }

  lemma MoveOnce(b: Both, moves: seq<Move>)
    requires moves != [] && MayMove(b, moves[0]) && CanMove(Moved(b, moves[0]), moves[1..])
    ensures CanMove(b, moves) && MoveAll(b, moves) == MoveAll(Moved(b, moves[0]), moves[1..])
  {}

  lemma NoMoves(b: Both)
    ensures CanMove(b, []) && MoveAll(b, []) == b
  {}

  function Lifted(ops: seq<Operation>): seq<Move> {
    if ops == [] then [] else [OnData(ops[0])] + Lifted(ops[1..])
  }

  lemma {:induction false} LiftedMoves(b: Both, ops: seq<Operation>, more: seq<Move>)
    requires CanRun(b.ds, ops) && CanMove(Both(ApplyAll(b.ds, ops), b.rs), more)
    ensures CanMove(b, Lifted(ops) + more)
    ensures MoveAll(b, Lifted(ops) + more) == MoveAll(Both(ApplyAll(b.ds, ops), b.rs), more)
    decreases |ops|
  {
    hide Enough, Apply, CanMove, MoveAll;
    LiftedFirst(ops, more);
    if ops == [] {
    } else {
      LiftedMoves(Both(Apply(b.ds, ops[0]), b.rs), ops[1..], more);
      hide Lifted, CanRun, ApplyAll;
      MoveOnce(b, Lifted(ops) + more);
    }
  }

  lemma LiftedFirst(ops: seq<Operation>, more: seq<Move>)
    ensures
      var moves := Lifted(ops) + more;
      if ops == [] then moves == more
      else moves != [] && moves[0] == OnData(ops[0]) && moves[1..] == Lifted(ops[1..]) + more
  {
    if ops == [] {
      assert Lifted(ops) + more == more;
    } else {
      FirstAndRest(OnData(ops[0]), Lifted(ops[1..]), more);
    }
  }

  lemma FirstAndRest(first: Move, rest: seq<Move>, more: seq<Move>)
    ensures var s := [first] + rest + more; s[0] == first && s[1..] == rest + more
  {}

  /** The cells before and after ROLL's loop, index by index. */
  ghost predicate RolledCells(t: seq<int>, t': seq<int>, k: int) {
    && |t'| == |t| && 0 <= k < |t|
    && (forall i :: 0 <= i < k ==> t'[i] == t[i])
    && (forall i :: k <= i < |t| - 1 ==> t'[i] == t[i + 1])
    && t'[|t| - 1] == t[k]
  }

  lemma Rolled(s: seq<int>, t: seq<int>, t': seq<int>, k: nat)
    requires Enough(s, Roll) && s == t + [s[|s| - 1]] && s[|s| - 1] == |s| - 2 - k && RolledCells(t, t', k)
    ensures t' == Apply(s, Roll)
  {}

  // ---- laws of the stack words -----------------------------------------------------------

  /** 0 PICK is DUP, and 1 ROLL is SWAP. */
  lemma PickZeroIsDup(s: seq<int>)
    requires |s| >= 1
    ensures Apply(s + [0], Pick) == Apply(s, Dup)
  {
    assert (s + [0])[..|s|] == s;
  }

  lemma RollOneIsSwap(s: seq<int>)
    requires |s| >= 2
    ensures Apply(s + [1], Roll) == Apply(s, Swap)
  {
    var k := |s| - 2;
    assert (s + [1])[..k] == s[..k] && (s + [1])[k + 1..|s|] == [s[k + 1]];
  }

  /** Rolling u cells u + 1 times brings every cell back. */
  function RollTimes(s: seq<int>, u: nat, n: nat): seq<int>
    requires u < |s|
    ensures |RollTimes(s, u, n)| == |s|
  {
    if n == 0 then s else Apply(RollTimes(s, u, n - 1) + [u], Roll)
  }

  /** The chosen cell leaves its place for the top. */
  lemma RollParts(a: seq<int>, x: int, b: seq<int>)
    ensures Apply(a + [x] + b + [|b|], Roll) == a + b + [x]
  {
    var s := a + [x] + b + [|b|];
    var k := |a|;
    assert s[..k] == a && s[k] == x && s[k + 1..|s| - 1] == b;
  }

  lemma {:induction false} RollRotates(s: seq<int>, u: nat, n: nat)
    requires u < |s| && n <= u + 1
    ensures
      var k := |s| - 1 - u;
      RollTimes(s, u, n) == s[..k] + s[k + n..] + s[k..k + n]
  {
    hide Apply, RollTimes;
    var k := |s| - 1 - u;
    RollTimesStep(s, u, n);
    if n == 0 {
      NoRoll(s, k);
    } else {
      RollRotates(s, u, n - 1);
      RollStep(s, k, n - 1, RollTimes(s, u, n - 1));
    }
  }

  lemma RollTimesStep(s: seq<int>, u: nat, n: nat)
    requires u < |s|
    ensures n == 0 ==> RollTimes(s, u, n) == s
    ensures n > 0 ==> Enough(RollTimes(s, u, n - 1) + [u], Roll) && RollTimes(s, u, n) == Apply(RollTimes(s, u, n - 1) + [u], Roll)
  {
    hide Apply;
  }

  lemma NoRoll(s: seq<int>, k: nat)
    requires k <= |s|
    ensures s[..k] + s[k + 0..] + s[k..k + 0] == s
  {
    assert s == s[..k] + s[k..];
  }

  lemma RollStep(s: seq<int>, k: nat, n: nat, t: seq<int>)
    requires k + n < |s| && t == s[..k] + s[k + n..] + s[k..k + n]
    ensures Enough(t + [|s| - 1 - k], Roll)
    ensures Apply(t + [|s| - 1 - k], Roll) == s[..k] + s[k + n + 1..] + s[k..k + n + 1]
  {
    hide Apply;
    var x, b := s[k + n], s[k + n + 1..] + s[k..k + n];
    RollParts(s[..k], x, b);
    assert t == s[..k] + [x] + b;
    assert s[k..k + n + 1] == s[k..k + n] + [x];
    assert s[..k] + b + [x] == s[..k] + s[k + n + 1..] + s[k..k + n + 1];
  }

  lemma RollCycle(s: seq<int>, u: nat)
    requires u < |s|
    ensures RollTimes(s, u, u + 1) == s
  {
    RollRotates(s, u, u + 1);
  }
}
