/** Faults: which steps fail, what a failing step leaves alone, and that a halted
    machine stays as it is (src/vm.c, vm_step). */
module Faults {
  import opened Words
  import opened Memory
  import opened Isa
  import Console
  import opened Cpu
  import opened Machine

  /** Everything but PC and the error record. */
  predicate SameMachine(s: State, t: State) {
    && s.cpu.r == t.cpu.r && s.cpu.sp == t.cpu.sp && s.cpu.flags == t.cpu.flags
    && s.mem == t.mem && s.stackLimit == t.stackLimit
    && s.stdin == t.stdin && s.stdout == t.stdout
  }

  /** The fault an instruction meets, if it meets one. */
  function FaultOf(s: State, i: Instruction): VmResult
    requires WellFormed(i)
  {
    match i.opcode
    case DIV | MOD => if ReadOperand(s.cpu, i.op2) == 0 then DivByZero else OK
    case PUSH | CALL => if s.cpu.sp < 2 || s.cpu.sp - 2 < s.stackLimit then StackOverflow else OK
    case POP | RET => if s.cpu.sp == INITIAL_SP then StackUnderflow else OK
    case SYS => if 1 <= i.op1.value <= 4 then OK else InvalidSyscall
    case _ => OK
  }

  lemma ExecuteFaults(s: State, i: Instruction)
    requires WellFormed(i)
    ensures Execute(s, i).result == FaultOf(s, i)
    ensures Execute(s, i).result != OK ==> Execute(s, i).state == s
  {
    hide Console.ReadInt, Taken, Alu, AluFlags, Write16, Read16, Wrap;
  }

  /** A running machine's step fails exactly when decoding fails, or the instruction meets its fault. */
  lemma StepFaults(s: State)
    requires !s.halted
    ensures match DecodeAt(s)
            case Undecodable(e) => Step(s).result == e
            case Decoded(i, next) => WellFormed(i) && Step(s).result == FaultOf(s, i)
  {
    hide Decode, Execute;
    match DecodeAt(s) {
      case Undecodable(_) =>
      case Decoded(i, next) =>
        DecodeThenEncode(s.mem, s.cpu.pc);
        ExecuteFaults(Advanced(s, next), i);
        FaultIgnoresPc(s, next, i);
    }
  }

  lemma FaultIgnoresPc(s: State, next: word, i: Instruction)
    requires WellFormed(i)
    ensures FaultOf(Advanced(s, next), i) == FaultOf(s, i)
  {
  }

  /** A step that fails changes no register, flag, stack pointer, memory byte or stream; it halts the
      machine and records the code and the address of the faulting instruction. */
  lemma FaultIsAtomic(s: State)
    requires !s.halted && Step(s).result != OK
    ensures var t := Step(s).state;
            && SameMachine(s, t)
            && t.halted && t.lastError == Step(s).result && t.errorPc == s.cpu.pc
            && (t.cpu.pc == s.cpu.pc || (DecodeAt(s).Decoded? && t.cpu.pc == DecodeAt(s).next))
  {
    hide Decode, Execute;
    match DecodeAt(s) {
      case Undecodable(_) =>
      case Decoded(i, next) =>
        DecodeThenEncode(s.mem, s.cpu.pc);
        ExecuteFaults(Advanced(s, next), i);
    }
  }

  lemma HaltedStep(s: State)
    requires s.halted
    ensures Step(s) == Outcome(s, s.lastError)
  {
  }

  /** A halted machine does not move, however often it is stepped. */
  lemma {:induction false} HaltedStays(s: State, n: nat)
    requires s.halted
    ensures Run(s, n) == s
    decreases n
  {
    hide Step;
    if n > 0 {
      HaltedStays(s, n - 1);
      HaltedStep(s);
    }
  }

  /** After a fault, every later step changes nothing and returns the same code. */
  lemma FaultIsAbsorbing(s: State, n: nat)
    requires !s.halted && Step(s).result != OK
    ensures Run(Step(s).state, n) == Step(s).state
    ensures Step(Run(Step(s).state, n)) == Outcome(Step(s).state, Step(s).result)
  {
    var t := Step(s).state;
    FaultIsAtomic(s);
    HaltedStays(t, n);
    HaltedStep(t);
    hide Step;
  }

  // ---- invariants of every run ----

  /** An error code is held only by a halted machine, and the reserved FLAGS bits are clear. */
  predicate StatusInv(s: State) {
    (s.lastError != OK ==> s.halted) && ReservedClear(s.cpu.flags)
  }

  lemma AluFlagsReserved(flags: bv16, r: AluResult)
    requires ReservedClear(flags)
    ensures ReservedClear(AluFlags(flags, r))
  {
    hide ReservedClear, SetFlag, HighBitSet;
    if r.carry.To? {
      SetFlagReserved(flags, C, r.carry.value);
    }
    var f1 := ApplyChange(flags, C, r.carry);
    if r.overflow.To? {
      SetFlagReserved(f1, O, r.overflow.value);
    }
    var f2 := ApplyChange(f1, O, r.overflow);
    SetFlagReserved(f2, Z, r.value == 0);
    SetFlagReserved(SetFlag(f2, Z, r.value == 0), S, HighBitSet(r.value));
  }

  lemma ExecuteStatus(s: State, i: Instruction)
    requires WellFormed(i) && ReservedClear(s.cpu.flags)
    ensures var t := Execute(s, i).state;
            t.lastError == s.lastError && ReservedClear(t.cpu.flags)
  {
    hide Console.ReadInt, Taken, Alu, AluFlags, Write16, Read16, Wrap, ReservedClear;
    if IsAlu(i.opcode) {
      AluOperands(i);
      var a, b := ReadOperand(s.cpu, i.op1), ReadOperand(s.cpu, i.op2);
      if !Divides(i.opcode) || b != 0 {
        AluFlagsReserved(s.cpu.flags, Alu(i.opcode, a, b));
      }
    }
  }

  lemma StepKeepsStatus(s: State)
    requires StatusInv(s)
    ensures StatusInv(Step(s).state)
  {
    hide Decode, Execute, ReservedClear;
    match DecodeAt(s) {
      case Undecodable(_) =>
      case Decoded(i, next) =>
        DecodeThenEncode(s.mem, s.cpu.pc);
        ExecuteStatus(Advanced(s, next), i);
    }
  }

  lemma {:induction false} RunKeepsStatus(s: State, n: nat)
    requires StatusInv(s)
    ensures StatusInv(Run(s, n))
    decreases n
  {
    hide Step, StatusInv;
    if n > 0 {
      RunKeepsStatus(s, n - 1);
      StepKeepsStatus(Run(s, n - 1));
    }
  }
}
