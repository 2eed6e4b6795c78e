/** The descending stack in memory refines an abstract list of words, over whole
    runs; calls return; and SP keeps its bounds (src/vm.c, PUSH, POP, CALL, RET). */
module Stack {
  import opened Words
  import opened Memory
  import opened Isa
  import Console
  import opened Cpu
  import opened Machine

  // ---- what a step does to the stack ----

  datatype StackOp = PushOp(value: word) | PopOp | NoOp

  predicate Executes(s: State) {
    !s.halted && DecodeAt(s).Decoded?
  }

  /** The push or pop that the next step performs, if it performs one. */
  function Effect(s: State): StackOp {
    if !Executes(s) then NoOp
    else
      var Decoded(i, next) := DecodeAt(s);
      DecodeThenEncode(s.mem, s.cpu.pc);
      match i.opcode
      case PUSH => if StackFull(s) then NoOp else PushOp(ReadOperand(s.cpu, i.op1))
      case CALL => if StackFull(s) then NoOp else PushOp(next)
      case POP | RET => if s.cpu.sp == INITIAL_SP then NoOp else PopOp
      case _ => NoOp
  }

  predicate Stores(s: State) {
    Executes(s) && DecodeAt(s).instr.opcode == STORE
  }

  function StoreAddress(s: State): word
    requires Stores(s)
  {
    DecodeThenEncode(s.mem, s.cpu.pc);
    EffectiveAddress(s.cpu, DecodeAt(s).instr.op1)
  }

  function StoredValue(s: State): word
    requires Stores(s)
  {
    DecodeThenEncode(s.mem, s.cpu.pc);
    s.cpu.r[DecodeAt(s).instr.op2.value]
  }

  /** Whether SP and memory moved from `s` to `t` as the stack operation says. */
  predicate Moves(s: State, op: StackOp, t: State) {
    match op
    case PushOp(v) => !StackFull(s) && t.mem == Write16(s.mem, s.cpu.sp, v) && t.cpu.sp == s.cpu.sp - 2
    case PopOp => s.cpu.sp != INITIAL_SP && t.mem == s.mem && t.cpu.sp == StackTop(s)
    case NoOp => t.cpu.sp == s.cpu.sp
  }

  lemma ExecuteMoves(s: State, i: Instruction)
    requires WellFormed(i)
    ensures var t := Execute(s, i).state;
            match i.opcode
            case PUSH => Moves(s, if StackFull(s) then NoOp else PushOp(ReadOperand(s.cpu, i.op1)), t)
            case CALL => Moves(s, if StackFull(s) then NoOp else PushOp(s.cpu.pc), t)
            case POP | RET => Moves(s, if s.cpu.sp == INITIAL_SP then NoOp else PopOp, t)
            case _ => t.cpu.sp == s.cpu.sp
  {
    hide Console.ReadInt, Taken, Alu, AluFlags, Write16, Read16, Wrap;
  }

  lemma ExecuteMemory(s: State, i: Instruction)
    requires WellFormed(i)
    ensures var o := Execute(s, i);
            match i.opcode
            case PUSH | CALL => StackFull(s) ==> o.state.mem == s.mem
            case STORE =>
              i.op2.value < 8 && o.state.mem == Write16(s.mem, EffectiveAddress(s.cpu, i.op1), s.cpu.r[i.op2.value])
            case _ => o.state.mem == s.mem
  {
    hide Console.ReadInt, Taken, Alu, AluFlags, Write16, Read16, Wrap;
  }

  /** Every step moves SP and the stack words as `Effect` says; only STORE writes elsewhere. */
  lemma StepMoves(s: State)
    ensures Moves(s, Effect(s), Step(s).state)
    ensures Effect(s).NoOp? && !Stores(s) ==> Step(s).state.mem == s.mem
    ensures Stores(s) ==> Step(s).state.mem == Write16(s.mem, StoreAddress(s), StoredValue(s))
    ensures Step(s).state.stackLimit == s.stackLimit
  {
    hide Decode, Execute, Write16, Read16, Wrap;
    if Executes(s) {
      var Decoded(i, next) := DecodeAt(s);
      DecodeThenEncode(s.mem, s.cpu.pc);
      ExecuteMoves(Advanced(s, next), i);
      ExecuteMemory(Advanced(s, next), i);
      ExecuteKeepsLimit(Advanced(s, next), i);
    }
  }

  lemma ExecuteKeepsLimit(s: State, i: Instruction)
    requires WellFormed(i)
    ensures Execute(s, i).state.stackLimit == s.stackLimit
  {
    hide Console.ReadInt, Taken, Alu, AluFlags, Write16, Read16, Wrap;
  }

  // ---- the invariant of SP ----

  /** SP is even, and is the empty mark or lies between the limit and 0xFFFC. */
  predicate StackInv(s: State) {
    s.cpu.sp % 2 == 0 && (s.cpu.sp == INITIAL_SP || s.stackLimit <= s.cpu.sp <= 0xFFFC)
  }

  lemma MovesKeepInv(s: State, op: StackOp, t: State)
    requires StackInv(s) && Moves(s, op, t) && t.stackLimit == s.stackLimit
    ensures StackInv(t)
    ensures t.cpu.sp == match op case PushOp(_) => s.cpu.sp - 2 case PopOp => s.cpu.sp + 2 case NoOp => s.cpu.sp
  {
    hide Write16;
  }

  lemma StepKeepsInv(s: State)
    requires StackInv(s)
    ensures StackInv(Step(s).state)
  {
    hide Step, Effect, Moves, StackInv;
    StepMoves(s);
    MovesKeepInv(s, Effect(s), Step(s).state);
  }

  lemma {:induction false} RunKeepsInv(s: State, n: nat)
    requires StackInv(s)
    ensures StackInv(Run(s, n)) && Run(s, n).stackLimit == s.stackLimit
    decreases n
  {
    hide Step, StackInv, Effect, Moves;
    if n > 0 {
      RunKeepsInv(s, n - 1);
      StepKeepsInv(Run(s, n - 1));
      StepMoves(Run(s, n - 1));
    }
  }

  /** Pushes and calls so far, less pops and returns. */
  function Depth(s: State, n: nat): int
    decreases n
  {
    if n == 0 then 0
    else
      Depth(s, n - 1) + match Effect(Run(s, n - 1)) case PushOp(_) => 1 case PopOp => -1 case NoOp => 0
  }

  /** SP is its start less twice the number of words pushed and not yet popped. */
  lemma {:induction false} StackPointerCounts(s: State, n: nat)
    requires StackInv(s)
    ensures Run(s, n).cpu.sp == s.cpu.sp - 2 * Depth(s, n)
    decreases n
  {
    hide Step, Effect, Moves, StackInv;
    if n > 0 {
      var t := Run(s, n - 1);
      StackPointerCounts(s, n - 1);
      RunKeepsInv(s, n - 1);
      StepMoves(t);
      MovesKeepInv(t, Effect(t), Step(t).state);
    }
  }

  // ---- the abstract stack ----

  /** The words on the stack, the most recent first. */
  function StackWords(m: Bytes, sp: word): seq<word>
    decreases 0x1_0000 - sp
  {
    if sp >= INITIAL_SP then [] else [Read16(m, sp + 2)] + StackWords(m, sp + 2)
  }

  function StackOf(s: State): seq<word> {
    StackWords(s.mem, s.cpu.sp)
  }

  lemma {:induction false} StackLength(m: Bytes, sp: word)
    requires sp % 2 == 0
    ensures 2 * |StackWords(m, sp)| == 0xFFFE - sp
    decreases 0x1_0000 - sp
  {
    if sp < INITIAL_SP {
      StackLength(m, sp + 2);
    }
  }

  /** The live stack depends on the bytes above SP + 1 and on no others. */
  lemma {:induction false} StackFrame(m: Bytes, m': Bytes, sp: word)
    requires sp % 2 == 0
    requires forall a: word | a >= sp + 2 :: m'[a] == m[a]
    ensures StackWords(m', sp) == StackWords(m, sp)
    decreases 0x1_0000 - sp
  {
    if sp < INITIAL_SP {
      assert Read16(m', sp + 2) == Read16(m, sp + 2) by {
        assert m'[sp + 2] == m[sp + 2] && m'[sp + 3] == m[sp + 3];
      }
      hide Read16;
      StackFrame(m, m', sp + 2);
    }
  }

  /** What the operation does to the abstract stack. */
  function Apply(stack: seq<word>, op: StackOp): seq<word> {
    match op
    case PushOp(v) => [v] + stack
    case PopOp => if stack == [] then [] else stack[1..]
    case NoOp => stack
  }

  lemma WriteOutside(m: Bytes, addr: word, v: word, a: word)
    requires a != addr && a != Wrap(addr + 1)
    ensures Write16(m, addr, v)[a] == m[a]
  {
  }

  lemma PushWords(m: Bytes, sp: word, v: word)
    requires sp % 2 == 0 && 2 <= sp
    ensures StackWords(Write16(m, sp, v), sp - 2) == [v] + StackWords(m, sp)
  {
    ReadBack(m, sp, v);
    var m' := Write16(m, sp, v);
    forall a: word | a >= sp + 2 ensures m'[a] == m[a] {
      WriteOutside(m, sp, v, a);
    }
    hide Write16, Read16;
    StackFrame(m, m', sp);
  }

  /** A store that hits a byte from SP + 2 to the top of memory. */
  predicate HitsStack(s: State) {
    Stores(s) && (StoreAddress(s) >= s.cpu.sp + 2 || Wrap(StoreAddress(s) + 1) >= s.cpu.sp + 2)
  }

  lemma StoreOutsideStack(m: Bytes, sp: word, addr: word, v: word)
    requires sp % 2 == 0 && addr < sp + 2 && Wrap(addr + 1) < sp + 2
    ensures StackWords(Write16(m, addr, v), sp) == StackWords(m, sp)
  {
    var m' := Write16(m, addr, v);
    forall a: word | a >= sp + 2 ensures m'[a] == m[a] {
      WriteOutside(m, addr, v, a);
    }
    hide Write16;
    StackFrame(m, m', sp);
  }

  /** One step of the machine is one operation of the abstract stack. */
  lemma StepRefines(s: State)
    requires StackInv(s) && !HitsStack(s)
    ensures StackOf(Step(s).state) == Apply(StackOf(s), Effect(s))
  {
    hide Step, Effect, Write16, Read16, Wrap;
    var t := Step(s).state;
    StepMoves(s);
    MovesKeepInv(s, Effect(s), t);
    match Effect(s) {
      case PushOp(v) => PushWords(s.mem, s.cpu.sp, v);
      case PopOp =>
      case NoOp =>
        if Stores(s) {
          StoreOutsideStack(s.mem, s.cpu.sp, StoreAddress(s), StoredValue(s));
        }
    }
  }

  /** The abstract stack after `n` steps, from the operations alone. */
  function ApplyAll(s: State, n: nat, stack: seq<word>): seq<word>
    decreases n
  {
    if n == 0 then stack else Apply(ApplyAll(s, n - 1, stack), Effect(Run(s, n - 1)))
  }

  predicate Undisturbed(s: State, n: nat) {
    forall k: nat | k < n :: !HitsStack(Run(s, k))
  }

  /** Over any run in which no store hits the live stack, the words in memory are exactly the
      abstract stack, and there are as many as SP says. */
  lemma {:induction false} RunRefines(s: State, n: nat)
    requires StackInv(s) && Undisturbed(s, n)
    ensures StackOf(Run(s, n)) == ApplyAll(s, n, StackOf(s))
    ensures 2 * |StackOf(Run(s, n))| == 0xFFFE - Run(s, n).cpu.sp
    decreases n
  {
    hide Step, Effect, HitsStack, StackWords, Apply, StackInv;
    RunKeepsInv(s, n);
    EvenPointer(Run(s, n));
    StackLength(Run(s, n).mem, Run(s, n).cpu.sp);
    if n > 0 {
      RunRefines(s, n - 1);
      RunKeepsInv(s, n - 1);
      StepRefines(Run(s, n - 1));
    }
  }

  lemma EvenPointer(s: State)
    requires StackInv(s)
    ensures s.cpu.sp % 2 == 0
  {
  }

  // ---- the values that come back ----

  /** POP puts the top of the stack in its register; RET jumps to it. */
  lemma PopGivesTop(s: State)
    requires StackInv(s) && Effect(s).PopOp?
    ensures StackOf(s) != []
    ensures var i := DecodeAt(s).instr;
            && (i.opcode == POP ==> i.op1.value < 8 && Step(s).state.cpu.r[i.op1.value] == StackOf(s)[0])
            && (i.opcode == RET ==> Step(s).state.cpu.pc == StackOf(s)[0])
  {
    hide Decode, Read16, StackFull;
    DecodeThenEncode(s.mem, s.cpu.pc);
  }

  lemma CallPushesNext(s: State)
    requires Executes(s) && DecodeAt(s).instr.opcode == CALL && !StackFull(s)
    ensures Effect(s) == PushOp(DecodeAt(s).next)
    ensures Step(s).state.cpu.pc == DecodeAt(s).instr.op1.value
  {
    hide Decode, Write16;
    DecodeThenEncode(s.mem, s.cpu.pc);
  }

  // ---- a call and its return ----

  predicate EndsWith(stack: seq<word>, bottom: seq<word>) {
    |stack| >= |bottom| && stack[|stack| - |bottom|..] == bottom
  }

  lemma ApplyKeepsBottom(stack: seq<word>, op: StackOp, bottom: seq<word>)
    requires EndsWith(stack, bottom)
    requires |Apply(stack, op)| >= |bottom|
    ensures EndsWith(Apply(stack, op), bottom)
  {
  }

  /** A run that never goes below a depth keeps what lies under that depth. */
  lemma {:induction false} BottomStays(s: State, n: nat, bottom: seq<word>)
    requires StackInv(s) && Undisturbed(s, n)
    requires EndsWith(StackOf(s), bottom)
    requires forall k: nat | k <= n :: |StackOf(Run(s, k))| >= |bottom|
    ensures EndsWith(StackOf(Run(s, n)), bottom)
    decreases n
  {
    hide Step, Effect, HitsStack, StackWords, StackOf, Apply, StackInv, EndsWith;
    if n > 0 {
      BottomStays(s, n - 1, bottom);
      RunKeepsInv(s, n - 1);
      StepRefines(Run(s, n - 1));
      assert |StackOf(Run(s, n))| >= |bottom|;
      ApplyKeepsBottom(StackOf(Run(s, n - 1)), Effect(Run(s, n - 1)), bottom);
    }
  }

  /** `s` is at a CALL that succeeds; `n` steps later, never having popped below the return
      address, the machine is at a RET with SP where the CALL left it. */
  predicate CallToReturn(s: State, n: nat) {
    var entry := Step(s).state;
    && Executes(s) && DecodeAt(s).instr.opcode == CALL && !StackFull(s)
    && (forall k: nat | k <= n :: Run(entry, k).cpu.sp <= entry.cpu.sp)
    && Executes(Run(entry, n)) && DecodeAt(Run(entry, n)).instr.opcode == RET
    && Run(entry, n).cpu.sp == entry.cpu.sp
  }

  lemma CallEntry(s: State)
    requires StackInv(s)
    requires Executes(s) && DecodeAt(s).instr.opcode == CALL && !StackFull(s)
    ensures var entry := Step(s).state;
            && StackInv(entry) && entry.cpu.sp == s.cpu.sp - 2
            && StackOf(entry) == [DecodeAt(s).next] + StackOf(s)
  {
    hide Step, Decode, StackInv, StackWords, StackFull;
    CallPushesNext(s);
    StepKeepsInv(s);
    StepMoves(s);
    StepRefines(s);
  }

  lemma ReturnStep(t: State)
    requires StackInv(t) && Executes(t) && DecodeAt(t).instr.opcode == RET && t.cpu.sp != INITIAL_SP
    ensures StackOf(t) != []
    ensures var u := Step(t).state;
            u.cpu.pc == StackOf(t)[0] && u.cpu.sp == t.cpu.sp + 2 && StackOf(u) == StackOf(t)[1..]
  {
    hide Step, Decode, StackWords;
    assert Effect(t) == PopOp;
    PopGivesTop(t);
    StepRefines(t);
    StepMoves(t);
    MovesKeepInv(t, PopOp, Step(t).state);
  }

  /** A balanced run from a CALL to its RET resumes right after the CALL, with SP and the whole
      stack as they were before the CALL. */
  lemma CallReturns(s: State, n: nat)
    requires StackInv(s) && CallToReturn(s, n) && Undisturbed(Step(s).state, n)
    ensures var after := Step(Run(Step(s).state, n)).state;
            && after.cpu.pc == DecodeAt(s).next
            && after.cpu.sp == s.cpu.sp
            && StackOf(after) == StackOf(s)
  {
    hide Step, Decode, StackInv, StackWords, StackOf, StackFull, HitsStack, Run;
    var entry := Step(s).state;
    var bottom := StackOf(entry);
    CallEntry(s);
    forall k: nat | k <= n ensures |StackOf(Run(entry, k))| >= |bottom| {
      RunKeepsInv(entry, k);
      DepthOrder(Run(entry, k), entry);
    }
    BottomStays(entry, n, bottom);
    var t := Run(entry, n);
    RunKeepsInv(entry, n);
    DepthOrder(t, entry);
    assert StackOf(t) == bottom;
    ReturnStep(t);
  }

  /** A lower stack pointer means a stack at least as deep. */
  lemma DepthOrder(s: State, t: State)
    requires StackInv(s) && StackInv(t) && s.cpu.sp <= t.cpu.sp
    ensures |StackOf(s)| >= |StackOf(t)|
    ensures s.cpu.sp == t.cpu.sp ==> |StackOf(s)| == |StackOf(t)|
  {
    StackLength(s.mem, s.cpu.sp);
    StackLength(t.mem, t.cpu.sp);
    hide StackWords;
  }
}
