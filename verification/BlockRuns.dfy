/** What a run of block operations does: to the blocks as a program sees them, a plain list, and
    to the drives, which the order of evictions decides. */
module BlockRuns {
  import opened Cell

  type Blocks = seq<seq<int>>

  datatype Operation = Read(u: nat) | Write(u: nat, j: nat, c: int) | Empty

  // ---- the plain list of blocks -----------------------------------------------------------

  function Apply(blocks: Blocks, op: Operation): Blocks {
    if op.Write? && op.u < |blocks| && op.j < |blocks[op.u]| then blocks[op.u := blocks[op.u][op.j := op.c]] else blocks
  }

  function After(blocks: Blocks, ops: seq<Operation>): Blocks {
    if ops == [] then blocks else Apply(After(blocks, ops[..|ops| - 1]), ops[|ops| - 1])
  }

  // ---- blocks, drives and buffers -----------------------------------------------------------

  /** The blocks as seen, the blocks on the drives, and for each buffer the block it holds, or
      -1, and whether it is dirty; next is the buffer used last. */
  datatype Layers = Layers(seen: Blocks, disk: Blocks, held: seq<int>, dirty: seq<int>, next: int)

  /** The buffer after this one, the first after the last. */
  function InTurn(i: int, n: int): (r: int)
    requires 0 < n
    ensures 0 <= r < n && (0 <= i < n ==> r == if i + 1 == n then 0 else i + 1)
  {
    Successor(i, n);
    (i + 1) % n
  }

  lemma Successor(i: int, n: int)
    requires 0 < n
    ensures 0 <= i < n ==> (i + 1) % n == if i + 1 == n then 0 else i + 1
  {
    if 0 <= i < n {
      DivModUnique(i + 1, n, if i + 1 == n then 1 else 0, if i + 1 == n then 0 else i + 1);
    }
  }

  predicate Sized(s: Layers) {
    |s.held| == |s.dirty| > 0 && |s.seen| == |s.disk|
  }

  /** Buffers and blocks fit together, and no two buffers hold the same block. */
  ghost predicate Fit(s: Layers) {
    && Sized(s)
    && (forall i :: 0 <= i < |s.held| ==> -1 <= s.held[i] < |s.seen|)
    && (forall i, j :: 0 <= i < j < |s.held| && s.held[i] == s.held[j] ==> s.held[i] == -1)
  }

  /** A dirty buffer that holds a block is written to the drive. */
  function Flushed(s: Layers, b: nat): Layers
    requires Sized(s) && b < |s.held|
  {
    var k := s.held[b];
    if 0 <= k < |s.seen| && s.dirty[b] != 0 then s.(disk := s.disk[k := s.seen[k]], dirty := s.dirty[b := 0]) else s
  }

  /** BLOCK: a block not held goes to the next buffer in turn, flushed before. */
  function Fetched(s: Layers, u: int): Layers
    requires Sized(s)
  {
    if u in s.held then s
    else
      var b := InTurn(s.next, |s.held|);
      Flushed(s, b).(held := s.held[b := u], next := b)
  }

  function Holder(held: seq<int>, u: int): (b: int)
    ensures -1 <= b < |held|
    ensures if u in held then b >= 0 && held[b] == u else b == -1
  {
    if held == [] then -1 else if held[|held| - 1] == u then |held| - 1 else Holder(held[..|held| - 1], u)
  }

  /** EMPTY-BUFFERS: no buffer holds a block, and those that did are clean. */
  function Emptied(s: Layers): Layers
    requires Sized(s)
  {
    var dirty := seq(|s.dirty|, i requires 0 <= i < |s.dirty| => if s.held[i] >= 0 then 0 else s.dirty[i]);
    Layers(s.disk, s.disk, seq(|s.held|, _ => -1), dirty, s.next)
  }

  /** A character stored in block u, which a buffer holds. */
  function Written(s: Layers, u: nat, j: nat, c: int): Layers {
    var b := Holder(s.held, u);
    s.(seen := Apply(s.seen, Write(u, j, c)), dirty := if b < 0 || |s.dirty| <= b then s.dirty else s.dirty[b := -1])
  }

  function Step(s: Layers, op: Operation): (t: Layers)
    requires Sized(s)
    ensures Sized(t) && |t.seen| == |s.seen| && |t.held| == |s.held|
  {
    match op
    case Read(u) => Fetched(s, u)
    case Write(u, j, c) => Written(Fetched(s, u), u, j, c)
    case Empty => Emptied(s)
  }

  function Run(s: Layers, ops: seq<Operation>): (t: Layers)
    requires Sized(s)
    ensures Sized(t) && |t.seen| == |s.seen| && |t.held| == |s.held|
  {
    if ops == [] then s else Step(Run(s, ops[..|ops| - 1]), ops[|ops| - 1])
  }

  /** What the reads of a run return. */
  function Reads(s: Layers, ops: seq<Operation>): Blocks
    requires Sized(s)
  {
    if ops == [] then []
    else
      var op, now := ops[|ops| - 1], Run(s, ops[..|ops| - 1]).seen;
      Reads(s, ops[..|ops| - 1]) + if op.Read? && op.u < |now| then [now[op.u]] else []
  }

  lemma RunStep(s: Layers, ops: seq<Operation>, i: nat)
    requires Sized(s) && i < |ops|
    ensures Run(s, ops[..i + 1]) == Step(Run(s, ops[..i]), ops[i])
    ensures
      var now := Run(s, ops[..i]).seen;
      Reads(s, ops[..i + 1]) == Reads(s, ops[..i]) + if ops[i].Read? && ops[i].u < |now| then [now[ops[i].u]] else []
  {
    assert ops[..i + 1][..i] == ops[..i];
  }

  // ---- what a program sees -----------------------------------------------------------------------

  /** Without EMPTY-BUFFERS the buffers cannot be noticed: the blocks are a plain list. */
  lemma {:induction false} SeenIsPlain(s: Layers, ops: seq<Operation>)
    requires Sized(s) && Empty !in ops
    ensures Run(s, ops).seen == After(s.seen, ops)
  {
    hide Step, Apply;
    if ops == [] {
    } else {
      SeenIsPlain(s, ops[..|ops| - 1]);
      StepSeen(Run(s, ops[..|ops| - 1]), ops[|ops| - 1]);
    }
  }

  lemma StepSeen(s: Layers, op: Operation)
    requires Sized(s) && op != Empty
    ensures Step(s, op).seen == Apply(s.seen, op)
  {}

  /** Blocks that differ from the drives are in dirty buffers. */
  ghost predicate Honest(s: Layers) {
    && Fit(s)
    && forall k :: 0 <= k < |s.seen| && s.seen[k] != s.disk[k] ==>
         exists b :: 0 <= b < |s.held| && s.held[b] == k && s.dirty[b] != 0
  }

  predicate InRange(op: Operation, capacity: nat) {
    match op
    case Read(u) => u < capacity
    case Write(u, _, _) => u < capacity
    case Empty => true
  }

  lemma FetchedHonest(s: Layers, u: nat)
    requires Honest(s) && u < |s.seen|
    ensures Honest(Fetched(s, u)) && Fetched(s, u).seen == s.seen && u in Fetched(s, u).held
  {
    if u !in s.held {
      var b := InTurn(s.next, |s.held|);
      var t := Fetched(s, u);
      hide InTurn;
      assert t.held[b] == u;
      forall k | 0 <= k < |t.seen| && t.seen[k] != t.disk[k] ensures exists i :: 0 <= i < |t.held| && t.held[i] == k && t.dirty[i] != 0 {
        var i :| 0 <= i < |s.held| && s.held[i] == k && s.dirty[i] != 0;
        assert i != b && t.held[i] == k && t.dirty[i] != 0;
      }
    }
  }

  lemma WrittenHonest(s: Layers, u: nat, j: nat, c: int)
    requires Honest(s) && u < |s.seen|
    ensures Honest(Written(Fetched(s, u), u, j, c))
  {
    hide Fetched, Holder;
    FetchedHonest(s, u);
    var f, t := Fetched(s, u), Written(Fetched(s, u), u, j, c);
    var b := Holder(f.held, u);
    forall k | 0 <= k < |t.seen| && t.seen[k] != t.disk[k] ensures exists i :: 0 <= i < |t.held| && t.held[i] == k && t.dirty[i] != 0 {
      if k == u {
        assert t.held[b] == k && t.dirty[b] != 0;
      } else {
        var i :| 0 <= i < |f.held| && f.held[i] == k && f.dirty[i] != 0;
        assert t.held[i] == k && t.dirty[i] != 0;
      }
    }
  }

  lemma EmptiedHonest(s: Layers)
    requires Honest(s)
    ensures Honest(Emptied(s))
  {}

  /** Any run keeps what is not on the drives in dirty buffers. */
  lemma {:induction false} RunHonest(s: Layers, ops: seq<Operation>)
    requires Honest(s) && forall op :: op in ops ==> InRange(op, |s.seen|)
    ensures Sized(s) && Honest(Run(s, ops))
  {
    hide Fetched, Written, Emptied, Holder;
    if ops == [] {
    } else {
      RunHonest(s, ops[..|ops| - 1]);
      var t := Run(s, ops[..|ops| - 1]);
      assert ops[|ops| - 1] in ops;
      match ops[|ops| - 1] {
        case Read(u) => FetchedHonest(t, u);
        case Write(u, j, c) => WrittenHonest(t, u, j, c);
        case Empty => EmptiedHonest(t);
      }
    }
  }

  /** EMPTY-BUFFERS, after any run, takes back what has been written to blocks since they were
      last flushed, and nothing else: only a block in a dirty buffer can look different. */
  lemma EmptyLoses(s: Layers, ops: seq<Operation>, k: nat)
    requires Honest(s) && (forall op :: op in ops ==> InRange(op, |s.seen|)) && k < |s.seen|
    ensures Sized(s)
    ensures
      var t := Run(s, ops);
      && Emptied(t).seen == t.disk
      && (t.disk[k] != t.seen[k] ==> exists b :: 0 <= b < |t.held| && t.held[b] == k && t.dirty[b] != 0)
  {
    hide Run;
    RunHonest(s, ops);
  }

  // ---- buffers are used in turn ------------------------------------------------------------

  /** The operation wants a block that no buffer holds. */
  predicate Misses(s: Layers, op: Operation) {
    !op.Empty? && op.u !in s.held
  }

  /** How many operations of the run do. */
  function MissCount(s: Layers, ops: seq<Operation>): nat
    requires Sized(s)
  {
    if ops == [] then 0
    else MissCount(s, ops[..|ops| - 1]) + if Misses(Run(s, ops[..|ops| - 1]), ops[|ops| - 1]) then 1 else 0
  }

  /** The buffer used last is as many places on, counted round, as blocks have been missing. */
  lemma {:induction false} BuffersInTurn(s: Layers, ops: seq<Operation>)
    requires Sized(s) && 0 <= s.next < |s.held|
    ensures 0 <= Run(s, ops).next < |s.held| && Run(s, ops).next == (s.next + MissCount(s, ops)) % |s.held|
    decreases |ops|
  {
    hide *;
    if ops == [] {
      NoMisses(s);
      DivModUnique(s.next, |s.held|, 0, s.next);
    } else {
      var before := ops[..|ops| - 1];
      BuffersInTurn(s, before);
      NextAfter(Run(s, before), ops[|ops| - 1]);
      OneFurther(s.next + MissCount(s, before), |s.held|);
      MissOne(s, ops);
    }
  }

  lemma NoMisses(s: Layers)
    requires Sized(s)
    ensures MissCount(s, []) == 0 && Run(s, []) == s && |s.held| > 0
  {}

  lemma MissOne(s: Layers, ops: seq<Operation>)
    requires Sized(s) && ops != []
    ensures
      var before, op := ops[..|ops| - 1], ops[|ops| - 1];
      && MissCount(s, ops) == MissCount(s, before) + (if Misses(Run(s, before), op) then 1 else 0)
      && Run(s, ops) == Step(Run(s, before), op)
  {}

  lemma OneFurther(x: nat, n: nat)
    requires n > 0
    ensures (x + 1) % n == if x % n + 1 == n then 0 else x % n + 1
  {
    var q := x / n;
    assert x == q * n + x % n;
    if x % n + 1 == n {
      assert x + 1 == (q + 1) * n;
      DivModUnique(x + 1, n, q + 1, 0);
    } else {
      DivModUnique(x + 1, n, q, x % n + 1);
    }
  }

  lemma NextAfter(s: Layers, op: Operation)
    requires Sized(s) && 0 <= s.next < |s.held|
    ensures
      Step(s, op).next == if !Misses(s, op) then s.next else if s.next + 1 == |s.held| then 0 else s.next + 1
    ensures
      forall i :: 0 <= i < |s.held| && !op.Empty? ==>
        Step(s, op).held[i] == if Misses(s, op) && i == Step(s, op).next then op.u else s.held[i]
  {}

  /** The buffers after a block was fetched: it stays in its buffer while fewer blocks than there
      are buffers have been missing since. */
  lemma {:induction false} StaysPut(s: Layers, ops: seq<Operation>)
    requires Sized(s) && 0 <= s.next < |s.held| && Empty !in ops && MissCount(s, ops) < |s.held|
    ensures Run(s, ops).held[s.next] == s.held[s.next]
    decreases |ops|
  {
    hide Fetched, Emptied, Step;
    if ops == [] {
    } else {
      var before, op := ops[..|ops| - 1], ops[|ops| - 1];
      assert op in ops;
      StaysPut(s, before);
      BuffersInTurn(s, before);
      BuffersInTurn(s, ops);
      NextAfter(Run(s, before), op);
      if Misses(Run(s, before), op) {
        NotYetRound(s.next, MissCount(s, ops), |s.held|);
      }
    }
  }

  lemma NotYetRound(p: nat, k: nat, n: nat)
    requires p < n && 0 < k < n
    ensures (p + k) % n != p
  {
    if p + k < n {
      DivModUnique(p + k, n, 0, p + k);
    } else {
      DivModUnique(p + k, n, 1, p + k - n);
    }
  }

  /** First in, first out.  A block just fetched is still held while fewer blocks than there are
      buffers have been missing after it, and the one that makes them as many takes its buffer. */
  lemma FirstInFirstOut(s: Layers, u: nat, ops: seq<Operation>)
    requires Honest(s) && 0 <= s.next < |s.held| && u < |s.seen| && u !in s.held
    requires Empty !in ops && forall op :: op in ops ==> InRange(op, |s.seen|)
    ensures
      var t := Step(s, Read(u));
      && (MissCount(t, ops) < |s.held| ==> u in Run(t, ops).held)
      && (ops != [] && MissCount(t, ops) == |s.held| && MissCount(t, ops[..|ops| - 1]) < |s.held| ==>
            u in Run(t, ops[..|ops| - 1]).held && u !in Run(t, ops).held)
  {
    hide Fetched, MissCount, Run, InTurn;
    var t := Step(s, Read(u));
    FetchedHonest(s, u);
    NextAfter(s, Read(u));
    assert t.held[t.next] == u;
    if MissCount(t, ops) < |s.held| {
      StaysPut(t, ops);
    }
    if ops != [] && MissCount(t, ops) == |s.held| && MissCount(t, ops[..|ops| - 1]) < |s.held| {
      LastOut(t, u, ops);
    }
  }

  lemma LastOut(t: Layers, u: nat, ops: seq<Operation>)
    requires Honest(t) && 0 <= t.next < |t.held| && t.held[t.next] == u
    requires Empty !in ops && forall op :: op in ops ==> InRange(op, |t.seen|)
    requires ops != [] && MissCount(t, ops) == |t.held| && MissCount(t, ops[..|ops| - 1]) < |t.held|
    ensures u in Run(t, ops[..|ops| - 1]).held && u !in Run(t, ops).held
  {
    hide Fetched, Step;
    var before, op := ops[..|ops| - 1], ops[|ops| - 1];
    assert op in ops;
    StaysPut(t, before);
    RunHonest(t, before);
    BuffersInTurn(t, before);
    BuffersInTurn(t, ops);
    NextAfter(Run(t, before), op);
    DivModUnique(t.next + |t.held|, |t.held|, 1, t.next);
    TakenOver(Run(t, before), op, t.next, u);
  }

  lemma TakenOver(s: Layers, op: Operation, p: nat, u: nat)
    requires Honest(s) && 0 <= s.next < |s.held| && p < |s.held| && s.held[p] == u && Misses(s, op) && Step(s, op).next == p
    ensures u !in Step(s, op).held
  {
    hide Step, Fetched;
    NextAfter(s, op);
    var h := Step(s, op).held;
    assert forall i :: 0 <= i < |s.held| && s.held[i] == u ==> i == p;
    assert op.u in h ==> op.u != u;
    forall i | 0 <= i < |h| ensures h[i] != u {
    }
  }

  // ---- what EMPTY-BUFFERS brings back ----------------------------------------------------------

  /** The operation takes block k's buffer for another block. */
  ghost predicate Displaces(s: Layers, op: Operation, k: int)
    requires Sized(s)
  {
    !op.Empty? && k in s.held && k !in Step(s, op).held
  }

  ghost predicate DisplacedAt(s: Layers, ops: seq<Operation>, k: int, i: nat)
    requires Sized(s) && i < |ops|
  {
    Displaces(Run(s, ops[..i]), ops[i], k)
  }

  /** What block k was when it last lost its buffer to another block; what its drive held at
      first, if it never did. */
  ghost predicate LastDisplaced(s: Layers, ops: seq<Operation>, k: nat, block: seq<int>)
    requires Sized(s) && k < |s.seen|
  {
    || (block == s.disk[k] && forall i :: 0 <= i < |ops| ==> !DisplacedAt(s, ops, k, i))
    || exists i :: 0 <= i < |ops| && DisplacedAt(s, ops, k, i) && block == Run(s, ops[..i]).seen[k]
         && forall j :: i < j < |ops| ==> !DisplacedAt(s, ops, k, j)
  }

  /** EMPTY-BUFFERS, after any run, makes each block what it was when it last lost its buffer to
      another one: only then can it have been written back. */
  lemma EmptyRestores(s: Layers, ops: seq<Operation>, k: nat)
    requires Honest(s) && k < |s.seen| && forall op :: op in ops ==> InRange(op, |s.seen|)
    ensures Sized(s) && LastDisplaced(s, ops, k, Run(s, ops + [Empty]).seen[k])
  {
    hide LastDisplaced, Honest;
    RunHonest(s, ops);
    assert (ops + [Empty])[..|ops|] == ops;
    DriveHasLast(s, ops, k);
  }

  lemma {:induction false} DriveHasLast(s: Layers, ops: seq<Operation>, k: nat)
    requires Honest(s) && k < |s.seen| && forall op :: op in ops ==> InRange(op, |s.seen|)
    ensures Sized(s) && LastDisplaced(s, ops, k, Run(s, ops).disk[k])
    decreases |ops|
  {
    hide Step, Displaces, Honest;
    RunHonest(s, ops);
    if ops == [] {
    } else {
      var n := |ops| - 1;
      DriveHasLast(s, ops[..n], k);
      RunHonest(s, ops[..n]);
      assert ops[n] in ops;
      DriveStep(Run(s, ops[..n]), ops[n], k);
      if !DisplacedAt(s, ops, k, n) {
        NotThisTime(s, ops, k, Run(s, ops).disk[k]);
      }
    }
  }

  /** A run whose last operation leaves block k in its buffer. */
  lemma NotThisTime(s: Layers, ops: seq<Operation>, k: nat, block: seq<int>)
    requires Sized(s) && k < |s.seen| && ops != [] && !DisplacedAt(s, ops, k, |ops| - 1)
    requires LastDisplaced(s, ops[..|ops| - 1], k, block)
    ensures LastDisplaced(s, ops, k, block)
  {
    hide Run, Displaces;
    var n := |ops| - 1;
    assert forall i :: 0 <= i <= n ==> ops[..n][..i] == ops[..i];
    assert forall i :: 0 <= i < n ==> DisplacedAt(s, ops[..n], k, i) == DisplacedAt(s, ops, k, i);
  }

  lemma DriveStep(s: Layers, op: Operation, k: nat)
    requires Honest(s) && k < |s.seen| && InRange(op, |s.seen|)
    ensures Sized(s) && Step(s, op).disk[k] == if Displaces(s, op, k) then s.seen[k] else s.disk[k]
  {
    if Misses(s, op) {
      DriveFetch(s, op.u, k);
    }
  }

  lemma DriveFetch(s: Layers, u: nat, k: nat)
    requires Honest(s) && k < |s.seen| && u < |s.seen| && u !in s.held
    ensures Fetched(s, u).disk[k] == if k in s.held && k !in Fetched(s, u).held then s.seen[k] else s.disk[k]
  {
    hide InTurn;
    var b := InTurn(s.next, |s.held|);
    if s.held[b] == k {
      assert forall i :: 0 <= i < |s.held| && i != b ==> s.held[i] != k;
    } else if k in s.held {
      var i :| 0 <= i < |s.held| && s.held[i] == k;
      assert Fetched(s, u).held[i] == k;
    }
  }
}
