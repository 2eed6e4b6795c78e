/** The machine as a transition system: what each instruction does to the state,
    and one fetch/decode/execute step (src/vm.c). */
module Machine {
  import opened Words
  import opened Memory
  import opened Isa
  import opened Console
  import opened Cpu

  datatype State = State(
    cpu: CpuState,
    mem: Bytes,
    halted: bool,
    lastError: VmResult,
    errorPc: word,
    stackLimit: word,
    stdin: seq<byte>,
    stdout: seq<Output>)

  /** What executing one instruction gives: the new state and the result code. */
  datatype Outcome = Outcome(state: State, result: VmResult)

  function Done(s: State): Outcome {
    Outcome(s, OK)
  }

  /** A REG or IMM16 operand's value. */
  function ReadOperand(c: CpuState, o: Operand): word
    requires ValueFits(o)
  {
    match o.mode
    case Reg => c.r[o.value]
    case Imm16 => o.value
    case _ => 0
  }

  /** The address a MEM_DIRECT or REG_INDIRECT operand names. */
  function EffectiveAddress(c: CpuState, o: Operand): word
    requires ValueFits(o)
  {
    match o.mode
    case MemDirect => o.value
    case RegIndirect => c.r[o.value]
    case _ => 0
  }

  function WithRegister(c: CpuState, index: word, value: word): CpuState
    requires index < 8
  {
    c.(r := c.r[index := value])
  }

  // ---- arithmetic, bitwise and shift results with their flags ----

  /** A result with the C and O flags it sets; `None` leaves a flag alone. */
  datatype Change = Keep | To(value: bool)
  datatype AluResult = AluResult(value: word, carry: Change, overflow: Change)

  /** `(x >> 16) != 0`. */
  predicate ExceedsWord(x: nat) {
    x / 0x1_0000 != 0
  }

  predicate AddOverflows(a: word, b: word, result: word) {
    HighBitSet(And(Xor(a, result), Xor(b, result)))
  }

  predicate SubOverflows(a: word, b: word, result: word) {
    HighBitSet(And(Xor(a, b), Xor(a, result)))
  }

  predicate MulOverflows(a: word, b: word) {
    var signedProduct := Signed(a) * Signed(b);
    signedProduct < -0x8000 || signedProduct > 0x7FFF
  }

  function Sum(a: word, b: word): nat {
    a + b
  }

  function Difference(a: word, b: word): word {
    var d: int := a as int - b as int;
    Wrap(d)
  }

  function Product(a: word, b: word): nat {
    a * b
  }

  function AddResult(a: word, b: word): AluResult {
    var result := Wrap(Sum(a, b));
    AluResult(result, To(ExceedsWord(Sum(a, b))), To(AddOverflows(a, b, result)))
  }

  function SubResult(a: word, b: word): AluResult {
    var result := Difference(a, b);
    AluResult(result, To(a < b), To(SubOverflows(a, b, result)))
  }

  function MulResult(a: word, b: word): AluResult {
    AluResult(Wrap(Product(a, b)), To(ExceedsWord(Product(a, b))), To(MulOverflows(a, b)))
  }

  function ShiftLeft(value: word, n: word): (word, bool) {
    if n == 0 then (value, false)
    else if n > 16 then (0, false)
    else (if n == 16 then 0 else Wrap(value * Pow2(n)), Bit(value, 16 - n))
  }

  function ShiftRight(value: word, n: word): (word, bool) {
    if n == 0 then (value, false)
    else if n > 16 then (0, false)
    else
      QuotientBound(value, Pow2(n));
      (if n == 16 then 0 else value / Pow2(n), Bit(value, n - 1))
  }

  /** The two-operand instructions that leave a result in a register, and CMP, which discards it. */
  predicate IsAlu(op: Opcode) {
    op in {ADD, SUB, MUL, DIV, MOD, AND, OR, XOR, NOT, SHL, SHR, CMP}
  }

  predicate Divides(op: Opcode) {
    op == DIV || op == MOD
  }

  function Alu(op: Opcode, a: word, b: word): AluResult
    requires IsAlu(op)
    requires Divides(op) ==> b != 0
  {
    match op
    case ADD => AddResult(a, b)
    case SUB | CMP => SubResult(a, b)
    case MUL => MulResult(a, b)
    case DIV => AluResult(a / b, Keep, Keep)
    case MOD => AluResult(a % b, Keep, Keep)
    case AND => AluResult(And(a, b), Keep, Keep)
    case OR => AluResult(Or(a, b), Keep, Keep)
    case XOR => AluResult(Xor(a, b), Keep, Keep)
    case NOT => AluResult(Not(a), Keep, Keep)
    case SHL => var (v, c) := ShiftLeft(a, b); AluResult(v, To(c), Keep)
    case SHR => var (v, c) := ShiftRight(a, b); AluResult(v, To(c), Keep)
  }

  function ApplyChange(flags: bv16, f: Flag, c: Change): bv16 {
    match c
    case Keep => flags
    case To(v) => SetFlag(flags, f, v)
  }

  /** FLAGS after a result: C and O as it says, Z and S from its value. */
  function AluFlags(flags: bv16, r: AluResult): bv16 {
    SetFlag(SetFlag(ApplyChange(ApplyChange(flags, C, r.carry), O, r.overflow), Z, r.value == 0),
            S, HighBitSet(r.value))
  }

  /** What the legality table says of these instructions: CMP alone has a first operand that is not a register. */
  predicate AluForm(i: Instruction) {
    IsAlu(i.opcode) && ValueFits(i.op1) && ValueFits(i.op2) && (i.opcode == CMP || i.op1.mode == Reg)
  }

  lemma AluOperands(i: Instruction)
    requires WellFormed(i) && IsAlu(i.opcode)
    ensures AluForm(i)
  {
  }

  function ExecAlu(s: State, i: Instruction): Outcome
    requires AluForm(i)
  {
    var a := ReadOperand(s.cpu, i.op1);
    var b := ReadOperand(s.cpu, i.op2);
    if Divides(i.opcode) && b == 0 then Outcome(s, DivByZero)
    else
      var r := Alu(i.opcode, a, b);
      var c := s.cpu.(flags := AluFlags(s.cpu.flags, r));
      Done(s.(cpu := if i.opcode == CMP then c else WithRegister(c, i.op1.value, r.value)))
  }

  // ---- jumps ----

  predicate IsJump(op: Opcode) {
    op in {JMP, JZ, JNZ, JG, JGE, JL, JLE, JB, JAE, JA, JBE}
  }

  predicate Taken(op: Opcode, flags: bv16)
    requires IsJump(op)
  {
    var z, c, s, o := GetFlag(flags, Z), GetFlag(flags, C), GetFlag(flags, S), GetFlag(flags, O);
    match op
    case JMP => true
    case JZ => z
    case JNZ => !z
    case JG => !z && s == o
    case JGE => s == o
    case JL => s != o
    case JLE => z || s != o
    case JB => c
    case JAE => !c
    case JA => !c && !z
    case JBE => c || z
  }

  function ExecJump(s: State, i: Instruction): Outcome
    requires WellFormed(i) && IsJump(i.opcode)
  {
    Done(if Taken(i.opcode, s.cpu.flags) then s.(cpu := s.cpu.(pc := i.op1.value)) else s)
  }

  // ---- the stack ----

  /** `sp < 2 || sp - 2 < stack_limit`: no room for one more word. */
  predicate StackFull(s: State) {
    s.cpu.sp < 2 || s.cpu.sp - 2 < s.stackLimit
  }

  function PushWord(s: State, value: word): Outcome {
    if StackFull(s) then Outcome(s, StackOverflow)
    else Done(s.(mem := Write16(s.mem, s.cpu.sp, value), cpu := s.cpu.(sp := s.cpu.sp - 2)))
  }

  /** The address of the word POP and RET read. */
  function StackTop(s: State): word {
    Wrap(s.cpu.sp + 2)
  }

  function ExecPop(s: State, i: Instruction): Outcome
    requires WellFormed(i) && i.opcode == POP
  {
    if s.cpu.sp == INITIAL_SP then Outcome(s, StackUnderflow)
    else Done(s.(cpu := WithRegister(s.cpu, i.op1.value, Read16(s.mem, StackTop(s))).(sp := StackTop(s))))
  }

  function ExecCall(s: State, i: Instruction): Outcome
    requires WellFormed(i) && i.opcode == CALL
  {
    var o := PushWord(s, s.cpu.pc);
    if o.result == OK then Done(o.state.(cpu := o.state.cpu.(pc := i.op1.value))) else o
  }

  function ExecRet(s: State): Outcome {
    if s.cpu.sp == INITIAL_SP then Outcome(s, StackUnderflow)
    else Done(s.(cpu := s.cpu.(pc := Read16(s.mem, StackTop(s)), sp := StackTop(s))))
  }

  // ---- system calls ----

  function ExecSys(s: State, i: Instruction): Outcome
    requires WellFormed(i) && i.opcode == SYS
  {
    match i.op1.value
    case 1 => Done(s.(stdout := s.stdout + [PrintInt(Signed(s.cpu.r[0]))]))
    case 2 => Done(s.(stdout := s.stdout + [PrintChar(LowByte(s.cpu.r[0]))]))
    case 3 =>
      var (value, rest) := ReadInt(s.stdin);
      Done(s.(cpu := WithRegister(s.cpu, 0, value), stdin := rest))
    case 4 => Done(s.(halted := true))
    case _ => Outcome(s, InvalidSyscall)
  }

  // ---- one instruction, one step, many steps ----

  function Execute(s: State, i: Instruction): Outcome
    requires WellFormed(i)
  {
    if IsAlu(i.opcode) then AluOperands(i); ExecAlu(s, i)
    else if IsJump(i.opcode) then ExecJump(s, i)
    else
      match i.opcode
      case NOP => Done(s)
      case MOV => Done(s.(cpu := WithRegister(s.cpu, i.op1.value, ReadOperand(s.cpu, i.op2))))
      case LOAD =>
        Done(s.(cpu := WithRegister(s.cpu, i.op1.value, Read16(s.mem, EffectiveAddress(s.cpu, i.op2)))))
      case STORE => Done(s.(mem := Write16(s.mem, EffectiveAddress(s.cpu, i.op1), s.cpu.r[i.op2.value])))
      case PUSH => PushWord(s, ReadOperand(s.cpu, i.op1))
      case POP => ExecPop(s, i)
      case CALL => ExecCall(s, i)
      case RET => ExecRet(s)
      case SYS => ExecSys(s, i)
      case HALT => Done(s.(halted := true))
  }

  /** The state with PC moved past the fetched instruction. */
  function Advanced(s: State, next: word): State {
    s.(cpu := s.cpu.(pc := next))
  }

  /** A failing step halts the machine and records the code and the faulting PC. */
  function Fail(s: State, e: VmResult, faultPc: word): Outcome {
    Outcome(s.(halted := true, lastError := e, errorPc := faultPc), e)
  }

  function DecodeAt(s: State): Decoding {
    Decode(s.mem, s.cpu.pc)
  }

  function Step(s: State): Outcome {
    if s.halted then Outcome(s, s.lastError)
    else
      match DecodeAt(s)
      case Undecodable(e) => Fail(s, e, s.cpu.pc)
      case Decoded(i, next) =>
        DecodeThenEncode(s.mem, s.cpu.pc);
        var o := Execute(Advanced(s, next), i);
        if o.result == OK then o else Fail(o.state, o.result, s.cpu.pc)
  }

  /** The state after `n` steps. */
  function Run(s: State, n: nat): State
    decreases n
  {
    if n == 0 then s else Step(Run(s, n - 1)).state
  }

  lemma RunNext(s: State, n: nat)
    ensures Run(s, 0) == s
    ensures Run(s, n + 1) == Step(Run(s, n)).state
  {
    hide Step;
  }

  lemma {:induction false} RunSplit(s: State, j: nat, k: nat)
    ensures Run(s, j + k) == Run(Run(s, j), k)
    decreases k
  {
    hide Step;
    if k > 0 {
      RunSplit(s, j, k - 1);
    }
  }
}
