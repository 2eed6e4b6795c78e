/** The interpreter proper: an object updated in place, one method for each
    instruction family, each proved to do what the transition system says (src/vm.c). */
module Interpreter {
  import opened Words
  import opened Memory
  import opened Isa
  import opened Console
  import opened Cpu
  import opened Machine

  class VM {
    const cpu: Processor
    const memory: Ram
    const io: Streams
    var halted: bool
    var lastError: VmResult
    var errorPc: word
    var stackLimit: word

    ghost predicate Valid()
    {
      cpu.Valid() && memory.Valid() && cpu.r as object != memory.data as object
    }

    ghost function Repr(): set<object>
    {
      {this, cpu, cpu.r, memory.data, io}
    }

    ghost function Snapshot(): State
      requires Valid()
      reads this, cpu, cpu.r, memory.data, io
    {
      State(cpu.Snapshot(), memory.Contents(), halted, lastError, errorPc, stackLimit, io.stdin, io.stdout)
    }

    constructor (input: seq<byte>)
      ensures Valid() && fresh(Repr())
      ensures Snapshot() == State(POWER_ON, Zeroed(), false, OK, 0, 0, input, [])
    {
      cpu := new Processor();
      memory := new Ram();
      io := new Streams(input);
      halted, lastError, errorPc, stackLimit := false, OK, 0, 0;
    }

    method Init()
      requires Valid()
      modifies Repr()
      ensures Valid()
      ensures Snapshot() == State(POWER_ON, Zeroed(), false, OK, 0, 0, old(io.stdin), old(io.stdout))
    {
      cpu.Init();
      memory.Init();
      halted := false;
      lastError := OK;
      errorPc := 0;
      stackLimit := 0;
    }

    // ---- operands ----

    method OperandRead(o: Operand) returns (value: word)
      requires Valid() && ValueFits(o)
      ensures value == ReadOperand(cpu.Snapshot(), o)
    {
      match o.mode {
        case Reg => value := cpu.r[o.value];
        case Imm16 => value := o.value;
        case _ => value := 0;
      }
    }

    method OperandEffectiveAddress(o: Operand) returns (addr: word)
      requires Valid() && ValueFits(o)
      ensures addr == EffectiveAddress(cpu.Snapshot(), o)
    {
      match o.mode {
        case MemDirect => addr := o.value;
        case RegIndirect => addr := cpu.r[o.value];
        case _ => addr := 0;
      }
    }

    // ---- data movement ----

    method ExecMov(i: Instruction) returns (result: VmResult)
      requires Valid() && WellFormed(i) && i.opcode == MOV
      modifies cpu.r
      ensures Outcome(Snapshot(), result) == Execute(old(Snapshot()), i)
    {
      var value := OperandRead(i.op2);
      cpu.r[i.op1.value] := value;
      result := OK;
    }

    method ExecLoad(i: Instruction) returns (result: VmResult)
      requires Valid() && WellFormed(i) && i.opcode == LOAD
      modifies cpu.r
      ensures Outcome(Snapshot(), result) == Execute(old(Snapshot()), i)
    {
      var addr := OperandEffectiveAddress(i.op2);
      var value := memory.LoadWord(addr);
      cpu.r[i.op1.value] := value;
      result := OK;
    }

    method ExecStore(i: Instruction) returns (result: VmResult)
      requires Valid() && WellFormed(i) && i.opcode == STORE
      modifies memory.data
      ensures Outcome(Snapshot(), result) == Execute(old(Snapshot()), i)
    {
      var addr := OperandEffectiveAddress(i.op1);
      memory.StoreWord(addr, cpu.r[i.op2.value]);
      result := OK;
    }

    // ---- arithmetic ----

    method SetZeroAndSign(value: word)
      requires Valid()
      modifies cpu`flags
      ensures cpu.flags == SetFlag(SetFlag(old(cpu.flags), Z, value == 0), S, HighBitSet(value))
    {
      cpu.AssignFlag(Z, value == 0);
      cpu.AssignFlag(S, HighBitSet(value));
    }

    method ExecAdd(i: Instruction) returns (result: VmResult)
      requires Valid() && AluForm(i) && i.opcode == ADD
      modifies cpu, cpu.r
      ensures Outcome(Snapshot(), result) == ExecAlu(old(Snapshot()), i)
    {
      hide Wrap, Sum, ExceedsWord, AddOverflows, HighBitSet;
      var a := cpu.r[i.op1.value];
      var b := OperandRead(i.op2);
      var sum := Sum(a, b);
      var value := Wrap(sum);
      cpu.AssignFlag(C, ExceedsWord(sum));
      cpu.AssignFlag(O, AddOverflows(a, b, value));
      SetZeroAndSign(value);
      cpu.r[i.op1.value] := value;
      result := OK;
    }

    method ExecSub(i: Instruction) returns (result: VmResult)
      requires Valid() && AluForm(i) && i.opcode == SUB
      modifies cpu, cpu.r
      ensures Outcome(Snapshot(), result) == ExecAlu(old(Snapshot()), i)
    {
      hide Difference, SubOverflows, HighBitSet;
      var a := cpu.r[i.op1.value];
      var b := OperandRead(i.op2);
      var value := Difference(a, b);
      cpu.AssignFlag(C, a < b);
      cpu.AssignFlag(O, SubOverflows(a, b, value));
      SetZeroAndSign(value);
      cpu.r[i.op1.value] := value;
      result := OK;
    }

    method ExecMul(i: Instruction) returns (result: VmResult)
      requires Valid() && AluForm(i) && i.opcode == MUL
      modifies cpu, cpu.r
      ensures Outcome(Snapshot(), result) == ExecAlu(old(Snapshot()), i)
    {
      hide Wrap, Product, ExceedsWord, MulOverflows, HighBitSet;
      var a := cpu.r[i.op1.value];
      var b := OperandRead(i.op2);
      var product := Product(a, b);
      var value := Wrap(product);
      cpu.AssignFlag(C, ExceedsWord(product));
      cpu.AssignFlag(O, MulOverflows(a, b));
      SetZeroAndSign(value);
      cpu.r[i.op1.value] := value;
      result := OK;
    }

    method ExecDiv(i: Instruction) returns (result: VmResult)
      requires Valid() && AluForm(i) && i.opcode == DIV
      modifies cpu, cpu.r
      ensures Outcome(Snapshot(), result) == ExecAlu(old(Snapshot()), i)
    {
      var a: int := cpu.r[i.op1.value];
      var b: int := OperandRead(i.op2);
      if b == 0 {
        return DivByZero;
      }
      var value: word := a / b;
      SetZeroAndSign(value);
      cpu.r[i.op1.value] := value;
      result := OK;
    }

    method ExecMod(i: Instruction) returns (result: VmResult)
      requires Valid() && AluForm(i) && i.opcode == MOD
      modifies cpu, cpu.r
      ensures Outcome(Snapshot(), result) == ExecAlu(old(Snapshot()), i)
    {
      var a: int := cpu.r[i.op1.value];
      var b: int := OperandRead(i.op2);
      if b == 0 {
        return DivByZero;
      }
      var value: word := a % b;
      SetZeroAndSign(value);
      cpu.r[i.op1.value] := value;
      result := OK;
    }

    // ---- bitwise operations ----

    method ExecLogic(i: Instruction) returns (result: VmResult)
      requires Valid() && AluForm(i) && i.opcode in {AND, OR, XOR}
      modifies cpu, cpu.r
      ensures Outcome(Snapshot(), result) == ExecAlu(old(Snapshot()), i)
    {
      hide And, Or, Xor, HighBitSet;
      var b := OperandRead(i.op2);
      var a := cpu.r[i.op1.value];
      var value := if i.opcode == AND then And(a, b) else if i.opcode == OR then Or(a, b) else Xor(a, b);
      SetZeroAndSign(value);
      cpu.r[i.op1.value] := value;
      result := OK;
    }

    method ExecNot(i: Instruction) returns (result: VmResult)
      requires Valid() && AluForm(i) && i.opcode == NOT
      modifies cpu, cpu.r
      ensures Outcome(Snapshot(), result) == ExecAlu(old(Snapshot()), i)
    {
      var value := Not(cpu.r[i.op1.value]);
      SetZeroAndSign(value);
      cpu.r[i.op1.value] := value;
      result := OK;
    }

    method ExecShl(i: Instruction) returns (result: VmResult)
      requires Valid() && AluForm(i) && i.opcode == SHL
      modifies cpu, cpu.r
      ensures Outcome(Snapshot(), result) == ExecAlu(old(Snapshot()), i)
    {
      var a := cpu.r[i.op1.value];
      var n := OperandRead(i.op2);
      var (value, carry) := ShiftLeft(a, n);
      cpu.AssignFlag(C, carry);
      SetZeroAndSign(value);
      cpu.r[i.op1.value] := value;
      result := OK;
    }

    method ExecShr(i: Instruction) returns (result: VmResult)
      requires Valid() && AluForm(i) && i.opcode == SHR
      modifies cpu, cpu.r
      ensures Outcome(Snapshot(), result) == ExecAlu(old(Snapshot()), i)
    {
      var a := cpu.r[i.op1.value];
      var n := OperandRead(i.op2);
      var (value, carry) := ShiftRight(a, n);
      cpu.AssignFlag(C, carry);
      SetZeroAndSign(value);
      cpu.r[i.op1.value] := value;
      result := OK;
    }

    // ---- comparison ----

    method ExecCmp(i: Instruction) returns (result: VmResult)
      requires Valid() && AluForm(i) && i.opcode == CMP
      modifies cpu, cpu.r
      ensures Outcome(Snapshot(), result) == ExecAlu(old(Snapshot()), i)
    {
      hide Difference, SubOverflows, HighBitSet;
      var a := OperandRead(i.op1);
      var b := OperandRead(i.op2);
      var value := Difference(a, b);
      cpu.AssignFlag(C, a < b);
      cpu.AssignFlag(O, SubOverflows(a, b, value));
      SetZeroAndSign(value);
      result := OK;
    }

    // ---- control flow ----

    method ExecJump(i: Instruction) returns (result: VmResult)
      requires Valid() && WellFormed(i) && IsJump(i.opcode)
      modifies cpu
      ensures Outcome(Snapshot(), result) == Machine.ExecJump(old(Snapshot()), i)
    {
      hide Taken, WellFormed;
      if Taken(i.opcode, cpu.flags) {
        cpu.pc := i.op1.value;
      }
      result := OK;
    }

    // ---- stack and functions ----

    method ExecPush(i: Instruction) returns (result: VmResult)
      requires Valid() && WellFormed(i) && i.opcode == PUSH
      modifies cpu, memory.data
      ensures Outcome(Snapshot(), result) == Execute(old(Snapshot()), i)
    {
      var value := OperandRead(i.op1);
      var sp := cpu.sp;
      if sp < 2 || sp - 2 < stackLimit {
        return StackOverflow;
      }
      memory.StoreWord(sp, value);
      cpu.sp := sp - 2;
      result := OK;
    }

    method ExecPop(i: Instruction) returns (result: VmResult)
      requires Valid() && WellFormed(i) && i.opcode == POP
      modifies cpu, cpu.r
      ensures Outcome(Snapshot(), result) == Execute(old(Snapshot()), i)
    {
      if cpu.sp == INITIAL_SP {
        return StackUnderflow;
      }
      var newSp := Wrap(cpu.sp + 2);
      var value := memory.LoadWord(newSp);
      cpu.r[i.op1.value] := value;
      cpu.sp := newSp;
      result := OK;
    }

    method ExecCall(i: Instruction) returns (result: VmResult)
      requires Valid() && WellFormed(i) && i.opcode == CALL
      modifies cpu, memory.data
      ensures Outcome(Snapshot(), result) == Execute(old(Snapshot()), i)
    {
      var sp := cpu.sp;
      if sp < 2 || sp - 2 < stackLimit {
        return StackOverflow;
      }
      memory.StoreWord(sp, cpu.pc);
      cpu.sp := sp - 2;
      cpu.pc := i.op1.value;
      result := OK;
    }

    method ExecRet(i: Instruction) returns (result: VmResult)
      requires Valid() && WellFormed(i) && i.opcode == RET
      modifies cpu
      ensures Outcome(Snapshot(), result) == Execute(old(Snapshot()), i)
    {
      if cpu.sp == INITIAL_SP {
        return StackUnderflow;
      }
      var newSp := Wrap(cpu.sp + 2);
      cpu.pc := memory.LoadWord(newSp);
      cpu.sp := newSp;
      result := OK;
    }

    // ---- system calls ----

    method ExecSys(i: Instruction) returns (result: VmResult)
      requires Valid() && WellFormed(i) && i.opcode == SYS
      modifies this, cpu.r, io
      ensures Outcome(Snapshot(), result) == Execute(old(Snapshot()), i)
    {
      match i.op1.value {
        case 1 => io.stdout := io.stdout + [PrintInt(Signed(cpu.r[0]))];
        case 2 => io.stdout := io.stdout + [PrintChar(LowByte(cpu.r[0]))];
        case 3 =>
          var value := io.ReadIntFromStdin();
          cpu.r[0] := value;
        case 4 => halted := true;
        case _ => return InvalidSyscall;
      }
      result := OK;
    }

    // ---- dispatch ----

    method ExecuteAlu(i: Instruction) returns (result: VmResult)
      requires Valid() && AluForm(i)
      modifies cpu, cpu.r
      ensures Outcome(Snapshot(), result) == ExecAlu(old(Snapshot()), i)
    {
      match i.opcode {
        case ADD => result := ExecAdd(i);
        case SUB => result := ExecSub(i);
        case MUL => result := ExecMul(i);
        case DIV => result := ExecDiv(i);
        case MOD => result := ExecMod(i);
        case AND | OR | XOR => result := ExecLogic(i);
        case NOT => result := ExecNot(i);
        case SHL => result := ExecShl(i);
        case SHR => result := ExecShr(i);
        case CMP => result := ExecCmp(i);
      }
    }

    method InstructionExecute(i: Instruction) returns (result: VmResult)
      requires Valid() && WellFormed(i)
      modifies Repr()
      ensures Outcome(Snapshot(), result) == Execute(old(Snapshot()), i)
    {
      if IsAlu(i.opcode) {
        AluOperands(i);
        result := ExecuteAlu(i);
      } else if IsJump(i.opcode) {
        result := ExecJump(i);
      } else {
        match i.opcode {
          case NOP => result := OK;
          case MOV => result := ExecMov(i);
          case LOAD => result := ExecLoad(i);
          case STORE => result := ExecStore(i);
          case PUSH => result := ExecPush(i);
          case POP => result := ExecPop(i);
          case CALL => result := ExecCall(i);
          case RET => result := ExecRet(i);
          case SYS => result := ExecSys(i);
          case HALT =>
            halted := true;
            result := OK;
        }
      }
    }

    method VmStep() returns (result: VmResult)
      requires Valid()
      modifies Repr()
      ensures Outcome(Snapshot(), result) == Step(old(Snapshot()))
    {
      if halted {
        return lastError;
      }
      var faultPc := cpu.pc;
      var instr;
      var next;
      result, next, instr := Fetch(memory, cpu.pc);
      if result == OK {
        DecodeThenEncode(memory.Contents(), faultPc);
      }
      cpu.pc := next;
      if result == OK {
        result := InstructionExecute(instr);
      }
      if result != OK {
        halted := true;
        lastError := result;
        errorPc := faultPc;
      }
    }
  }
}
