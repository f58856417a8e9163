/** The threaded-code virtual machine of jsforth: the primitives that steer the instruction
    pointer, and any other word as an arbitrary function of the two stacks. */
module VirtualMachine {
  import opened Options

  /** Execution tokens of the control primitives.  Only that they differ matters. */
  const X_LIT := 1
  const X_BRANCH := 2
  const X_0BRANCH := 3
  const X_DO := 4
  const X_QDO := 5
  const X_LOOP := 6
  const X_LEAVE := 7
  const X_QLEAVE := 8

  predicate IsControl(xt: int) {
    X_LIT <= xt <= X_QLEAVE
  }

  /** Data stack s[1..sp] with its cached top, and return stack r[1..rp]; tops are last. */
  datatype Stacks = Stacks(s: seq<int>, tos: int, r: seq<int>) {
    function Push(x: int): Stacks {
      this.(s := s + [tos], tos := x)
    }

    /** The cached top is dropped and the next element takes its place. */
    function Pop(): (st: Stacks)
      requires s != []
    {
      this.(s := s[..|s| - 1], tos := s[|s| - 1])
    }

    /** Limit and index leave the return stack. */
    function Unloop(): (st: Stacks)
      requires |r| >= 2
    {
      this.(r := r[..|r| - 2])
    }

    /** Limit and index move to the return stack. */
    function EnterLoop(): (st: Stacks)
      requires |s| >= 2
    {
      Stacks(s[..|s| - 2], s[|s| - 2], r + [s[|s| - 1], tos])
    }

    /** ?DO with nothing to do drops limit and index. */
    function SkipLoop(): (st: Stacks)
      requires |s| >= 2
    {
      Stacks(s[..|s| - 2], s[|s| - 2], r)
    }

    /** The loop index goes up by one. */
    function Count(): (st: Stacks)
      requires r != []
    {
      this.(r := r[|r| - 1 := r[|r| - 1] + 1])
    }

    predicate AtLimit()
      requires |r| >= 2
    {
      r[|r| - 1] == r[|r| - 2]
    }
  }

  /** What the words that are not control primitives do; None is any abnormal end. */
  type Words = (int, Stacks) -> Option<Stacks>

  /** Either about to execute the cell at ip, or stopped by a fault. */
  datatype Config = Running(ip: int, st: Stacks) | Fault

  type Memory = map<int, int>

  /** One turn of the inner interpreter: fetch, advance, execute. */
  function Step(m: Memory, words: Words, ip: int, st: Stacks): Config {
    if ip !in m then Fault else
    var w, arg := m[ip], ip + 1;
    if w == X_LIT then
      if arg in m then Running(arg + 1, st.Push(m[arg])) else Fault
    else if w == X_BRANCH then
      if arg in m then Running(arg + m[arg], st) else Fault
    else if w == X_0BRANCH then
      if st.s == [] || arg !in m then Fault
      else Running(if st.tos != 0 then arg + 1 else arg + m[arg], st.Pop())
    else if w == X_DO then
      if |st.s| < 2 then Fault else Running(arg + 1, st.EnterLoop())
    else if w == X_QDO then
      if |st.s| < 2 || arg !in m then Fault
      else if st.tos == st.s[|st.s| - 1] then Running(arg + m[arg], st.SkipLoop())
      else Running(arg + 1, st.EnterLoop())
    else if w == X_LOOP then
      if |st.r| < 2 || arg !in m then Fault
      else if st.Count().AtLimit() then Running(arg + 1, st.Count().Unloop())
      else Running(arg + m[arg], st.Count())
    else if w == X_LEAVE then
      if |st.r| < 2 || arg !in m || m[arg] !in m then Fault
      else Running(m[arg] + m[m[arg]], st.Unloop())
    else if w == X_QLEAVE then
      if st.s == [] then Fault
      else if st.tos == 0 then Running(arg + 1, st.Pop())
      else if |st.r| < 2 || arg !in m || m[arg] !in m then Fault
      else Running(m[arg] + m[m[arg]], st.Unloop().Pop())
    else
      match words(w, st)
      case None => Fault
      case Some(st') => Running(arg, st')
  }

  ghost predicate Inside(lo: int, hi: int, c: Config) {
    c.Running? && lo <= c.ip < hi
  }

  /** n turns, stopping for good on a fault or on leaving the code in [lo, hi). */
  ghost function Run(m: Memory, words: Words, lo: int, hi: int, c: Config, n: nat): Config
    decreases n
  {
    if n == 0 || !Inside(lo, hi, c) then c
    else Run(m, words, lo, hi, Step(m, words, c.ip, c.st), n - 1)
  }

  lemma {:induction false} RunCompose(m: Memory, words: Words, lo: int, hi: int, c: Config, n: nat, k: nat)
    ensures Run(m, words, lo, hi, c, n + k) == Run(m, words, lo, hi, Run(m, words, lo, hi, c, n), k)
    decreases n
  {
    if n == 0 || !Inside(lo, hi, c) {
    } else {
      RunCompose(m, words, lo, hi, Step(m, words, c.ip, c.st), n - 1, k);
    }
  }

  /** Once outside, always outside; so a run still inside has been inside all along. */
  lemma RunOutside(m: Memory, words: Words, lo: int, hi: int, c: Config, n: nat, k: nat)
    requires n <= k && !Inside(lo, hi, Run(m, words, lo, hi, c, n))
    ensures Run(m, words, lo, hi, c, k) == Run(m, words, lo, hi, c, n)
  {
    RunCompose(m, words, lo, hi, c, n, k - n);
  }

  /** The machine in memory, its primitives statement by statement. */
  class Machine {
    var m: Memory
    var ip: int
    var s: seq<int>
    var tos: int
    var r: seq<int>
    var faulted: bool
    const words: Words

    function View(): Stacks
      reads this
    {
      Stacks(s, tos, r)
    }

    function State(): Config
      reads this
    {
      if faulted then Fault else Running(ip, View())
    }

    constructor (m: Memory, words: Words, entry: int, st: Stacks)
      ensures this.m == m && this.words == words && State() == Running(entry, st)
    {
      this.m, this.words, this.ip := m, words, entry;
      s, tos, r, faulted := st.s, st.tos, st.r, false;
    }

    method PopTos()
      requires s != []
      modifies `s, `tos
      ensures View() == old(View()).Pop()
    {
      s, tos := s[..|s| - 1], s[|s| - 1];
    }

    method EnterLoop()
      requires |s| >= 2
      modifies `s, `tos, `r
      ensures View() == old(View()).EnterLoop()
    {
      r := r + [s[|s| - 1]];
      s := s[..|s| - 1];
      r := r + [tos];
      PopTos();
      assert r == old(r) + [old(s)[|old(s)| - 1], old(tos)];
    }

    method Leave(arg: int)
      requires |r| >= 2 && arg in m && m[arg] in m
      modifies `r, `ip
      ensures View() == old(View()).Unloop() && ip == m[arg] + m[m[arg]]
    {
      r := r[..|r| - 2];
      ip := m[arg];
      ip := ip + m[ip];
    }

    /** One turn of virtualmachine: the token at ip is fetched, ip moves past it, and its primitive runs. */
    method Turn()
      requires !faulted
      modifies `ip, `s, `tos, `r, `faulted
      ensures State() == Step(m, words, old(ip), old(View()))
    {
      if ip !in m {
        faulted := true;
        return;
      }
      var w := m[ip];
      ip := ip + 1;
      if w == X_DO || w == X_QDO || w == X_LOOP {
        LoopTurn(w);
      } else if w == X_LEAVE || w == X_QLEAVE {
        LeaveTurn(w);
      } else {
        PlainTurn(w);
      }
    }

    /** Literals, branches and plain words. */
    method PlainTurn(w: int)
      requires !faulted && ip - 1 in m && m[ip - 1] == w
      requires w != X_DO && w != X_QDO && w != X_LOOP && w != X_LEAVE && w != X_QLEAVE
      modifies `ip, `s, `tos, `r, `faulted
      ensures State() == Step(m, words, old(ip) - 1, old(View()))
    {
      if w == X_LIT {
        if ip !in m { faulted := true; return; }
        s, tos := s + [tos], m[ip];
        ip := ip + 1;
      } else if w == X_BRANCH {
        if ip !in m { faulted := true; return; }
        ip := ip + m[ip];
      } else if w == X_0BRANCH {
        if s == [] || ip !in m { faulted := true; return; }
        if tos != 0 {
          ip := ip + 1;
        } else {
          ip := ip + m[ip];
        }
        PopTos();
      } else {
        match words(w, View()) {
          case None => faulted := true;
          case Some(st) => s, tos, r := st.s, st.tos, st.r;
        }
      }
    }

    /** (do), (?do) and (loop). */
    method LoopTurn(w: int)
      requires !faulted && ip - 1 in m && m[ip - 1] == w && (w == X_DO || w == X_QDO || w == X_LOOP)
      modifies `ip, `s, `tos, `r, `faulted
      ensures State() == Step(m, words, old(ip) - 1, old(View()))
    {
      if w == X_DO {
        if |s| < 2 { faulted := true; return; }
        EnterLoop();
        ip := ip + 1;
      } else if w == X_QDO {
        if |s| < 2 || ip !in m { faulted := true; return; }
        if tos == s[|s| - 1] {
          s := s[..|s| - 1];
          ip := ip + m[ip];
          PopTos();
        } else {
          EnterLoop();
          ip := ip + 1;
        }
      } else {
        if |r| < 2 || ip !in m { faulted := true; return; }
        r := r[|r| - 1 := r[|r| - 1] + 1];
        if r[|r| - 1] != r[|r| - 2] {
          ip := ip + m[ip];
        } else {
          ip := ip + 1;
          r := r[..|r| - 2];
        }
      }
    }

    /** (leave) and (?leave). */
    method LeaveTurn(w: int)
      requires !faulted && ip - 1 in m && m[ip - 1] == w && (w == X_LEAVE || w == X_QLEAVE)
      modifies `ip, `s, `tos, `r, `faulted
      ensures State() == Step(m, words, old(ip) - 1, old(View()))
    {
      if w == X_LEAVE {
        if |r| < 2 || ip !in m || m[ip] !in m { faulted := true; return; }
        Leave(ip);
      } else {
        if s == [] { faulted := true; return; }
        if tos != 0 {
          if |r| < 2 || ip !in m || m[ip] !in m { faulted := true; return; }
          Leave(ip);
        } else {
          ip := ip + 1;
        }
        PopTos();
      }
    }

    /** virtualmachine, for at most the given number of turns and while in [lo, hi). */
    method Execute(lo: int, hi: int, turns: nat) returns (taken: nat)
      modifies `ip, `s, `tos, `r, `faulted
      ensures taken <= turns && (taken < turns ==> !Inside(lo, hi, State()))
      ensures State() == Run(m, words, lo, hi, old(State()), turns)
    {
      taken := 0;
      while taken < turns && !faulted && lo <= ip < hi
        invariant taken <= turns
        invariant Run(m, words, lo, hi, State(), turns - taken) == Run(m, words, lo, hi, old(State()), turns)
      {
        Turn();
        taken := taken + 1;
      }
    }
  }
}
