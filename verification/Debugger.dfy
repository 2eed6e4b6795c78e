/** Debugger control: step, continue, break, delete and reset over the machine (src/debugger.c). */
module Debugger {
  import opened Words
  import opened Memory
  import opened Isa
  import opened Console
  import opened Cpu
  import opened Machine
  import opened Interpreter
  import Faults
  import Loader

  const MAX_BREAKPOINTS: nat := 64
  const CONTINUE_STEP_LIMIT: nat := 10_000_000

  /** A command's numeric argument once parsed: missing, malformed, or a number in 0..0xFFFF. */
  datatype Argument = Missing | Malformed | Number(n: word)

  // ---- the session a debugger stands for ----

  datatype Session = Session(machine: State, breakpoints: set<word>)

  datatype Command = StepN(n: nat) | Continue | Break(addr: word) | Delete(addr: word) | Reset

  /** The loop of `continue`, `steps` steps having been taken. */
  function ContinueLoop(s: State, breakpoints: set<word>, steps: nat): State
    decreases CONTINUE_STEP_LIMIT - steps
  {
    if s.halted || steps >= CONTINUE_STEP_LIMIT || s.cpu.pc in breakpoints then s
    else ContinueLoop(Step(s).state, breakpoints, steps + 1)
  }

  function ContinueFrom(s: State, breakpoints: set<word>): State {
    if s.halted then s else ContinueLoop(Step(s).state, breakpoints, 1)
  }

  function Obey(d: Session, image: seq<byte>, c: Command): Session {
    match c
    case StepN(n) => d.(machine := Run(d.machine, n))
    case Continue => d.(machine := ContinueFrom(d.machine, d.breakpoints))
    case Break(a) =>
      if a in d.breakpoints || |d.breakpoints| == MAX_BREAKPOINTS then d else d.(breakpoints := d.breakpoints + {a})
    case Delete(a) => d.(breakpoints := d.breakpoints - {a})
    case Reset => d.(machine := Loader.Load(d.machine, image).state)
  }

  function ObeyAll(d: Session, image: seq<byte>, cs: seq<Command>): Session
    decreases |cs|
  {
    if cs == [] then d else ObeyAll(Obey(d, image, cs[0]), image, cs[1..])
  }

  // ---- continue refines iterated stepping ----

  predicate Pauses(s: State, breakpoints: set<word>) {
    s.halted || s.cpu.pc in breakpoints
  }

  /** `k` is where `continue` from `s` must stop: the first of at least one step after which the machine is
      halted or at a breakpoint, or the step limit. */
  predicate StopsAt(s: State, breakpoints: set<word>, k: nat) {
    && 1 <= k <= CONTINUE_STEP_LIMIT
    && (forall j: nat | 1 <= j < k :: !Pauses(Run(s, j), breakpoints))
    && (Pauses(Run(s, k), breakpoints) || k == CONTINUE_STEP_LIMIT)
  }

  lemma StopIsUnique(s: State, breakpoints: set<word>, j: nat, k: nat)
    requires StopsAt(s, breakpoints, j) && StopsAt(s, breakpoints, k)
    ensures j == k
  {
    hide Run, Pauses;
  }

  lemma {:induction false} LoopStops(s: State, breakpoints: set<word>, steps: nat) returns (k: nat)
    requires 1 <= steps <= CONTINUE_STEP_LIMIT
    requires forall j: nat | 1 <= j < steps :: !Pauses(Run(s, j), breakpoints)
    ensures StopsAt(s, breakpoints, k)
    ensures ContinueLoop(Run(s, steps), breakpoints, steps) == Run(s, k)
    decreases CONTINUE_STEP_LIMIT - steps
  {
    hide Step;
    if Pauses(Run(s, steps), breakpoints) || steps == CONTINUE_STEP_LIMIT {
      k := steps;
    } else {
      k := LoopStops(s, breakpoints, steps + 1);
    }
  }

  /** `continue` on a running machine is a run of between one and ten million steps to the first
      halt or breakpoint, and nothing else. */
  lemma ContinueIsRun(s: State, breakpoints: set<word>) returns (k: nat)
    requires !s.halted
    ensures StopsAt(s, breakpoints, k) && ContinueFrom(s, breakpoints) == Run(s, k)
    ensures forall j: nat | StopsAt(s, breakpoints, j) :: ContinueFrom(s, breakpoints) == Run(s, j)
  {
    hide Step, Pauses;
    assert Run(s, 1) == Step(Run(s, 0)).state;
    k := LoopStops(s, breakpoints, 1);
    hide Run, StopsAt;
    forall j: nat | StopsAt(s, breakpoints, j) ensures j == k {
      StopIsUnique(s, breakpoints, j, k);
    }
  }

  lemma ContinueStops(s: State, breakpoints: set<word>, k: nat)
    requires !s.halted && StopsAt(s, breakpoints, k)
    ensures ContinueFrom(s, breakpoints) == Run(s, k)
  {
    hide Run, StopsAt, ContinueFrom;
    var _ := ContinueIsRun(s, breakpoints);
  }

  lemma ContinueHalted(s: State, breakpoints: set<word>)
    requires s.halted
    ensures ContinueFrom(s, breakpoints) == s
  {
  }

  // ---- reset ----

  /** The breakpoint set a history leaves, from its break and delete commands alone. */
  function Breakpoints(b: set<word>, cs: seq<Command>): set<word>
    decreases |cs|
  {
    if cs == [] then b
    else
      Breakpoints(match cs[0]
                  case Break(a) => if a in b || |b| == MAX_BREAKPOINTS then b else b + {a}
                  case Delete(a) => b - {a}
                  case _ => b, cs[1..])
  }

  lemma {:induction false} HistoryBreakpoints(d: Session, image: seq<byte>, cs: seq<Command>)
    ensures ObeyAll(d, image, cs).breakpoints == Breakpoints(d.breakpoints, cs)
    decreases |cs|
  {
    hide Run, ContinueFrom, Loader.Load;
    if cs != [] {
      HistoryBreakpoints(Obey(d, image, cs[0]), image, cs[1..]);
    }
  }

  lemma {:induction false} ObeyLast(d: Session, image: seq<byte>, cs: seq<Command>, c: Command)
    ensures ObeyAll(d, image, cs + [c]) == Obey(ObeyAll(d, image, cs), image, c)
    decreases |cs|
  {
    hide Obey;
    if cs != [] {
      assert (cs + [c])[1..] == cs[1..] + [c];
      ObeyLast(Obey(d, image, cs[0]), image, cs[1..], c);
    } else {
      assert ([c])[1..] == [];
    }
  }

  /** After any history, `reset` gives the machine a fresh load gives, whatever the program did to
      registers and memory; the breakpoints are those the history's own commands leave. */
  lemma ResetIsFreshLoad(d: Session, image: seq<byte>, cs: seq<Command>)
    requires Loader.Acceptable(image)
    ensures var before := ObeyAll(d, image, cs);
            ObeyAll(d, image, cs + [Reset])
            == Session(Loader.Loaded(image, before.machine.stdin, before.machine.stdout),
                       Breakpoints(d.breakpoints, cs))
  {
    ObeyLast(d, image, cs, Reset);
    HistoryBreakpoints(d, image, cs);
    hide Loader.Loaded, Loader.Acceptable;
  }

  // ---- the debugger object ----

  /** What the command reports. */
  datatype Report =
    | BadArgument | AlreadyHalted | Stopped | AtBreakpoint(addr: word) | LimitReached
    | AlreadySet | TooMany | WasSet | Removed | NotFound
    | ReloadFailed | WasReset

  class Debugger {
    const vm: VM
    const image: seq<byte>
    const breakpoints: array<word>
    var breakpointCount: nat

    /** At most 64 entries, no two the same. */
    ghost predicate Valid()
      reads this, breakpoints
    {
      && vm.Valid() && {breakpoints, this} !! vm.Repr()
      && breakpoints.Length == MAX_BREAKPOINTS && breakpointCount <= MAX_BREAKPOINTS
      && forall i, j | 0 <= i < j < breakpointCount :: breakpoints[i] != breakpoints[j]
    }

    ghost function Entries(): seq<word>
      requires breakpoints.Length == MAX_BREAKPOINTS && breakpointCount <= MAX_BREAKPOINTS
      reads this, breakpoints
    {
      breakpoints[..breakpointCount]
    }

    /** The abstract session. */
    ghost function View(): Session
      requires Valid()
      reads this, breakpoints, vm.Repr()
    {
      Session(vm.Snapshot(), Elements(Entries()))
    }

    constructor (vm: VM, image: seq<byte>)
      requires vm.Valid()
      ensures Valid() && this.vm == vm && this.image == image && fresh(breakpoints)
      ensures View() == Session(vm.Snapshot(), {})
    {
      this.vm := vm;
      this.image := image;
      breakpoints := new word[MAX_BREAKPOINTS](i => 0);
      breakpointCount := 0;
    }

    method HasBreakpoint(addr: word) returns (found: bool)
      requires Valid()
      ensures found == (addr in View().breakpoints)
    {
      var i := 0;
      while i < breakpointCount
        invariant 0 <= i <= breakpointCount
        invariant addr !in breakpoints[..i]
      {
        if breakpoints[i] == addr {
          assert Entries()[i] == addr;
          return true;
        }
        i := i + 1;
      }
      return false;
    }

    /** `step n` is n steps of the machine and leaves the breakpoints alone. */
    method CmdStep(arg: Argument) returns (report: Report)
      requires Valid()
      modifies vm.Repr()
      ensures Valid()
      ensures arg.Malformed? ==> report == BadArgument && View() == old(View())
      ensures !arg.Malformed? ==>
                && report == Stopped
                && vm.Snapshot() == Run(old(vm.Snapshot()), if arg.Missing? then 1 else arg.n)
                && View().breakpoints == old(View().breakpoints)
                && View() == Obey(old(View()), image, StepN(if arg.Missing? then 1 else arg.n))
    {
      hide Step, Run, Loader.Load;
      var n: nat := 1;
      match arg {
        case Missing =>
        case Malformed => return BadArgument;
        case Number(k) => n := k;
      }
      ghost var s0 := vm.Snapshot();
      RunNext(s0, 0);
      var i: nat := 0;
      while i < n
        invariant i <= n
        invariant vm.Valid() && vm.Snapshot() == Run(s0, i)
      {
        if vm.halted {
          Faults.HaltedStays(Run(s0, i), n - i);
          RunSplit(s0, i, n - i);
          break;
        }
        RunNext(s0, i);
        var _ := vm.VmStep();
        i := i + 1;
      }
      report := Stopped;
    }

    /** `continue` from a running machine takes the `k` steps to the first halt or breakpoint, or to the limit, and
        leaves the breakpoints alone; the report says which, and a breakpoint met by the last step allowed counts
        as the limit. */
    method CmdContinue() returns (report: Report, ghost k: nat)
      requires Valid()
      modifies vm.Repr()
      ensures Valid()
      ensures old(vm.halted) ==> report == AlreadyHalted && View() == old(View())
      ensures View().breakpoints == old(View().breakpoints)
      ensures !old(vm.halted) ==>
                && StopsAt(old(vm.Snapshot()), old(View().breakpoints), k)
                && vm.Snapshot() == Run(old(vm.Snapshot()), k)
                && report == (if vm.halted then Stopped
                              else if vm.cpu.pc in old(View().breakpoints) && k < CONTINUE_STEP_LIMIT then
                                AtBreakpoint(vm.cpu.pc)
                              else LimitReached)
      ensures View() == Obey(old(View()), image, Continue)
    {
      hide Step, Run, Loader.Load, ContinueFrom;
      k := 0;
      ghost var s0, b := vm.Snapshot(), View().breakpoints;
      if vm.halted {
        ContinueHalted(s0, b);
        return AlreadyHalted, 0;
      }
      RunNext(s0, 0);
      var _ := vm.VmStep();
      var steps: nat := 1;
      while !vm.halted && steps < CONTINUE_STEP_LIMIT
        invariant Valid() && View().breakpoints == b
        invariant 1 <= steps <= CONTINUE_STEP_LIMIT
        invariant vm.Snapshot() == Run(s0, steps)
        invariant forall j: nat | 1 <= j < steps :: !Pauses(Run(s0, j), b)
        decreases CONTINUE_STEP_LIMIT - steps
      {
        var found := HasBreakpoint(vm.cpu.pc);
        if found {
          k := steps;
          ContinueStops(s0, b, k);
          return AtBreakpoint(vm.cpu.pc), k;
        }
        RunNext(s0, steps);
        var _ := vm.VmStep();
        steps := steps + 1;
      }
      k := steps;
      ContinueStops(s0, b, k);
      if !vm.halted {
        return LimitReached, k;
      }
      report := Stopped;
    }

    /** Puts a new address after the entries. */
    method AddEntry(addr: word)
      requires Valid() && breakpointCount < MAX_BREAKPOINTS && addr !in Entries()
      modifies this, breakpoints
      ensures Valid() && Entries() == old(Entries()) + [addr]
    {
      breakpoints[breakpointCount] := addr;
      breakpointCount := breakpointCount + 1;
      assert Entries() == old(Entries()) + [addr];
    }

    method CmdBreak(arg: Argument) returns (report: Report)
      requires Valid()
      modifies this, breakpoints
      ensures Valid()
      ensures !arg.Number? ==> report == BadArgument && View() == old(View())
      ensures arg.Number? ==>
                && View() == Obey(old(View()), image, Break(arg.n))
                && vm.Snapshot() == old(vm.Snapshot())
                && (if report == WasSet then View().breakpoints == old(View().breakpoints) + {arg.n}
                    else View().breakpoints == old(View().breakpoints))
                && report == (if arg.n in old(View()).breakpoints then AlreadySet
                              else if |old(View()).breakpoints| == MAX_BREAKPOINTS then TooMany
                              else WasSet)
    {
      hide Obey;
      if !arg.Number? {
        return BadArgument;
      }
      var addr := arg.n;
      ghost var session := View();
      BreakAdds(session, image, addr);
      Cardinality(Entries());
      var found := HasBreakpoint(addr);
      if found {
        return AlreadySet;
      }
      if breakpointCount == MAX_BREAKPOINTS {
        return TooMany;
      }
      ghost var before := Entries();
      AddEntry(addr);
      ElementsAppend(before, addr);
      report := WasSet;
    }

    method CmdDelete(arg: Argument) returns (report: Report)
      requires Valid()
      modifies this, breakpoints
      ensures Valid()
      ensures !arg.Number? ==> report == BadArgument && View() == old(View())
      ensures arg.Number? ==>
                && View() == Obey(old(View()), image, Delete(arg.n))
                && vm.Snapshot() == old(vm.Snapshot())
                && View().breakpoints == old(View().breakpoints) - {arg.n}
                && report == (if arg.n in old(View()).breakpoints then Removed else NotFound)
    {
      if !arg.Number? {
        return BadArgument;
      }
      var addr := arg.n;
      var i := 0;
      while i < breakpointCount
        invariant 0 <= i <= breakpointCount
        invariant addr !in breakpoints[..i]
      {
        if breakpoints[i] == addr {
          ghost var before := Entries();
          breakpoints[i] := breakpoints[breakpointCount - 1];
          breakpointCount := breakpointCount - 1;
          assert Entries() == SwapDelete(before, i);
          SwapDeleteElements(before, i);
          return Removed;
        }
        i := i + 1;
      }
      assert Elements(Entries()) - {addr} == Elements(Entries());
      report := NotFound;
    }

    method CmdReset() returns (report: Report)
      requires Valid()
      modifies vm.Repr()
      ensures Valid()
      ensures View() == Obey(old(View()), image, Reset)
      ensures View().breakpoints == old(View().breakpoints)
      ensures Loader.Acceptable(image) ==>
                vm.Snapshot() == Loader.Loaded(image, old(vm.Snapshot().stdin), old(vm.Snapshot().stdout))
      ensures report == if Loader.Acceptable(image) then WasReset else ReloadFailed
    {
      var r := Loader.VmLoad(vm, image);
      if r != OK {
        return ReloadFailed;
      }
      report := WasReset;
    }
  }

  lemma BreakAdds(d: Session, image: seq<byte>, a: word)
    ensures Obey(d, image, Break(a))
         == if a in d.breakpoints || |d.breakpoints| == 64 then d else Session(d.machine, d.breakpoints + {a})
  {
    hide Run, ContinueFrom, Loader.Load;
  }

  // ---- the array of breakpoints as a set ----

  predicate Distinct(s: seq<word>) {
    forall i, j | 0 <= i < j < |s| :: s[i] != s[j]
  }

  function Elements(s: seq<word>): set<word> {
    set x | x in s
  }

  lemma ElementsAppend(s: seq<word>, x: word)
    ensures Elements(s + [x]) == Elements(s) + {x}
  {
  }

  /** A duplicate-free sequence has as many elements as its set. */
  lemma {:induction false} Cardinality(s: seq<word>)
    requires Distinct(s)
    ensures |Elements(s)| == |s|
  {
    if s != [] {
      var n := |s| - 1;
      Cardinality(s[..n]);
      assert s == s[..n] + [s[n]];
      ElementsAppend(s[..n], s[n]);
    }
  }

  /** Entry `i` overwritten by the last, and the last dropped. */
  function SwapDelete(s: seq<word>, i: nat): seq<word>
    requires i < |s|
  {
    s[i := s[|s| - 1]][..|s| - 1]
  }

  /** Overwriting with the last entry deletes exactly that element, and keeps the rest distinct. */
  lemma SwapDeleteElements(s: seq<word>, i: nat)
    requires i < |s| && Distinct(s)
    ensures Elements(SwapDelete(s, i)) == Elements(s) - {s[i]}
    ensures Distinct(SwapDelete(s, i))
  {
    var r, last := SwapDelete(s, i), |s| - 1;
    forall x: word ensures x in r <==> x in s && x != s[i] {
      if x in s && x != s[i] {
        var j :| 0 <= j < |s| && s[j] == x;
        assert r[if j == last then i else j] == x;
      }
    }
  }
}
