/** What instructions mean to a program: the frame of every step, division, the
    bitwise operators, and pairs of instructions that undo or echo one another (src/vm.c). */
module Effects {
  import opened Options
  import opened Words
  import opened Memory
  import opened Isa
  import opened Cpu
  import opened Machine
  import opened Console
  import opened Arithmetic
  import Stack

  // ---- what a step may change ----

  /** The register an instruction may write. */
  function Destination(i: Instruction): Option<word> {
    match i.opcode
    case MOV | ADD | SUB | MUL | DIV | MOD | AND | OR | XOR | NOT | SHL | SHR | LOAD | POP => Some(i.op1.value)
    case SYS => if i.op1.value == 3 then Some(0) else None
    case _ => None
  }

  /** The address of the word an instruction may write. */
  function Written(s: State, i: Instruction): Option<word>
    requires WellFormed(i)
  {
    match i.opcode
    case STORE => Some(EffectiveAddress(s.cpu, i.op1))
    case PUSH | CALL => Some(s.cpu.sp)
    case _ => None
  }

  predicate Branches(op: Opcode) {
    IsJump(op) || op == CALL || op == RET
  }

  lemma RegisterFrame(s: State, i: Instruction, k: word)
    requires WellFormed(i) && k < 8 && Destination(i) != Some(k)
    ensures Execute(s, i).state.cpu.r[k] == s.cpu.r[k]
  {
    hide ReadInt, Taken, Alu, AluFlags, Write16, Read16, Wrap, ExecAlu, ReadOperand, LegalModes, EffectiveAddress,
      StackFull;
    if IsAlu(i.opcode) {
      AluOperands(i);
      AluFrame(s, i, k);
    }
  }

  lemma AluFrame(s: State, i: Instruction, k: word)
    requires AluForm(i) && k < 8 && Destination(i) != Some(k)
    ensures ExecAlu(s, i).state.cpu.r[k] == s.cpu.r[k]
  {
    hide Alu, AluFlags, ReadOperand;
  }

  lemma AluControl(s: State, i: Instruction)
    requires AluForm(i)
    ensures var t := ExecAlu(s, i).state;
            s == t.(cpu := t.cpu.(r := s.cpu.r, flags := s.cpu.flags))
  {
    hide Alu, AluFlags, ReadOperand;
  }

  lemma MemoryFrame(s: State, i: Instruction, a: word)
    requires WellFormed(i)
    requires Written(s, i).Some? ==> a != Written(s, i).value && a != Wrap(Written(s, i).value + 1)
    ensures Execute(s, i).state.mem[a] == s.mem[a]
  {
    hide ReadInt, Taken, Alu, AluFlags, Read16, Wrap, LowByte, HighByte, EffectiveAddress;
    Stack.ExecuteMemory(s, i);
    Stack.ExecuteMoves(s, i);
    hide Execute;
  }

  lemma ControlFrame(s: State, i: Instruction)
    requires WellFormed(i)
    ensures var t := Execute(s, i).state;
            && (t.cpu.flags != s.cpu.flags ==> IsAlu(i.opcode))
            && (t.cpu.pc != s.cpu.pc ==> Branches(i.opcode))
            && (t.halted != s.halted ==> i.opcode == HALT || (i.opcode == SYS && i.op1.value == 4))
            && (t.stdin != s.stdin ==> i.opcode == SYS && i.op1.value == 3)
            && (t.stdout != s.stdout ==> i.opcode == SYS && i.op1.value in {1, 2})
            && s.stdout <= t.stdout
  {
    hide ReadInt, Taken, ExecAlu, Write16, Read16, Wrap, ReadOperand, EffectiveAddress, StackFull, LegalModes, LowByte,
      Signed;
    if IsAlu(i.opcode) {
      AluOperands(i);
      AluControl(s, i);
    }
  }

  /** A step that executes `i` changes at most the register, the word of memory, the flags, the control
      transfer and the stream that belong to `i`. */
  lemma StepFrame(s: State, k: word, a: word)
    requires Stack.Executes(s) && k < 8
    ensures WellFormed(DecodeAt(s).instr)
    ensures var i := DecodeAt(s).instr;
            var t := Step(s).state;
            && (Destination(i) != Some(k) ==> t.cpu.r[k] == s.cpu.r[k])
            && ((Written(s, i).Some? ==> a != Written(s, i).value && a != Wrap(Written(s, i).value + 1)) ==>
                  t.mem[a] == s.mem[a])
    ensures var Decoded(i, next) := DecodeAt(s);
            var t := Step(s).state;
            && (t.cpu.flags != s.cpu.flags ==> IsAlu(i.opcode))
            && (t.cpu.pc != next ==> Branches(i.opcode))
            && (t.stdin != s.stdin ==> i.opcode == SYS && i.op1.value == 3)
            && (t.stdout != s.stdout ==> i.opcode == SYS && i.op1.value in {1, 2})
            && s.stdout <= t.stdout
  {
    hide Decode, Execute, WellFormed, IsAlu, Branches, Wrap, Destination;
    var Decoded(i, next) := DecodeAt(s);
    DecodeThenEncode(s.mem, s.cpu.pc);
    var s' := Advanced(s, next);
    ControlFrame(s', i);
    if Destination(i) != Some(k) {
      RegisterFrame(s', i, k);
    }
    WrittenIgnoresPc(s, next, i);
    hide Written;
    if Written(s, i).Some? ==> a != Written(s, i).value && a != Wrap(Written(s, i).value + 1) {
      MemoryFrame(s', i, a);
    }
  }

  lemma WrittenIgnoresPc(s: State, next: word, i: Instruction)
    requires WellFormed(i)
    ensures Written(Advanced(s, next), i) == Written(s, i)
  {
  }

  // ---- division and the bitwise operators ----

  lemma ExecuteAlu(s: State, i: Instruction)
    requires WellFormed(i) && IsAlu(i.opcode) && i.opcode != CMP
    ensures i.op1.value < 8
    ensures var a, b := s.cpu.r[i.op1.value], ReadOperand(s.cpu, i.op2);
            if Divides(i.opcode) && b == 0 then Execute(s, i) == Outcome(s, DivByZero)
            else
              var t := Execute(s, i).state.cpu;
              && Execute(s, i).result == OK
              && t.r[i.op1.value] == Alu(i.opcode, a, b).value
              && t.flags == AluFlags(s.cpu.flags, Alu(i.opcode, a, b))
  {
    hide Alu, AluFlags, WellFormed, ReadOperand;
    AluOperands(i);
    RegisterOperand(s.cpu, i.op1);
  }

  lemma RegisterOperand(c: CpuState, o: Operand)
    requires ValueFits(o) && o.mode == Reg
    ensures ReadOperand(c, o) == c.r[o.value]
  {
  }

  /** Z and S follow the result in the register; C and O are as before. */
  predicate SignsOnly(before: bv16, after: bv16, result: word) {
    && GetFlag(after, Z) == (result == 0)
    && GetFlag(after, S) == (Signed(result) < 0)
    && GetFlag(after, C) == GetFlag(before, C)
    && GetFlag(after, O) == GetFlag(before, O)
  }

  /** `q` and `r` are the quotient and the remainder of `a` by `b`. */
  predicate Splits(a: word, b: word, q: word, r: word) {
    a == b * q + r && r < b
  }

  lemma QuotientAndRemainder(a: word, b: word)
    requires b != 0
    ensures Splits(a, b, Alu(DIV, a, b).value, Alu(MOD, a, b).value)
    ensures Alu(DIV, a, b).carry.Keep? && Alu(DIV, a, b).overflow.Keep?
    ensures Alu(MOD, a, b).carry.Keep? && Alu(MOD, a, b).overflow.Keep?
  {
    hide AddResult, SubResult, MulResult, ShiftLeft, ShiftRight;
  }

  /** DIV and MOD of the same operands fault together, exactly on a zero divisor, and otherwise leave the
      quotient and the remainder of the one unsigned division. */
  lemma DivisionMeaning(s: State, d: Instruction, m: Instruction, b: word)
    requires WellFormed(d) && WellFormed(m)
    requires d.opcode == DIV && m == d.(opcode := MOD) && Supplies(s.cpu, d.op2, b)
    ensures d.op1.value < 8
    ensures var a := s.cpu.r[d.op1.value];
            var x, y := Execute(s, d), Execute(s, m);
            && (x.result == DivByZero <==> b == 0) && (y.result == DivByZero <==> b == 0)
            && (b == 0 ==> x.state == s && y.state == s)
            && (b != 0 ==>
                  var q, r := x.state.cpu.r[d.op1.value], y.state.cpu.r[d.op1.value];
                  && Splits(a, b, q, r)
                  && SignsOnly(s.cpu.flags, x.state.cpu.flags, q)
                  && SignsOnly(s.cpu.flags, y.state.cpu.flags, r))
  {
    hide Execute, Alu, AluFlags, GetFlag, Signed, Splits, ReadOperand;
    ExecuteAlu(s, d);
    ExecuteAlu(s, m);
    SuppliedRead(s.cpu, d.op2, b);
    var a := s.cpu.r[d.op1.value];
    if b != 0 {
      QuotientAndRemainder(a, b);
      AluFlagsReadBack(s.cpu.flags, Alu(DIV, a, b));
      AluFlagsReadBack(s.cpu.flags, Alu(MOD, a, b));
    }
  }

  /** What a bitwise instruction does to one bit. */
  predicate BitOf(op: Opcode, p: bool, q: bool)
    requires op in {AND, OR, XOR, NOT}
  {
    match op
    case AND => p && q
    case OR => p || q
    case XOR => p != q
    case NOT => !p
  }

  lemma LogicBit(op: Opcode, a: word, b: word, k: nat)
    requires op in {AND, OR, XOR, NOT} && k < 16
    ensures Bit(Alu(op, a, b).value, k) == BitOf(op, Bit(a, k), Bit(b, k))
    ensures Alu(op, a, b).carry.Keep? && Alu(op, a, b).overflow.Keep?
  {
    hide And, Or, Xor, Not, AddResult, SubResult, MulResult, ShiftLeft, ShiftRight;
    OperatorBits(a, b, k);
  }

  /** AND, OR, XOR and NOT act on each of the sixteen bits alone, set Z and S, and leave C and O. */
  lemma LogicMeaning(s: State, i: Instruction, b: word, k: nat)
    requires WellFormed(i) && i.opcode in {AND, OR, XOR, NOT} && k < 16
    requires i.opcode == NOT || Supplies(s.cpu, i.op2, b)
    ensures i.op1.value < 8
    ensures var a := s.cpu.r[i.op1.value];
            var t := Execute(s, i).state.cpu;
            && Execute(s, i).result == OK
            && Bit(t.r[i.op1.value], k) == BitOf(i.opcode, Bit(a, k), Bit(b, k))
            && SignsOnly(s.cpu.flags, t.flags, t.r[i.op1.value])
  {
    hide Execute, Alu, AluFlags, GetFlag, Signed, ReadOperand, LegalModes;
    ExecuteAlu(s, i);
    if i.opcode != NOT {
      SuppliedRead(s.cpu, i.op2, b);
    }
    var a, c := s.cpu.r[i.op1.value], ReadOperand(s.cpu, i.op2);
    LogicBit(i.opcode, a, c, k);
    AluFlagsReadBack(s.cpu.flags, Alu(i.opcode, a, c));
  }

  /** A shift instruction shifts its register one place as many times as its count says; C is the last bit
      shifted out, Z and S follow the result, and O is as before. */
  lemma ShiftMeaning(s: State, i: Instruction, n: word)
    requires WellFormed(i) && i.opcode in {SHL, SHR} && Supplies(s.cpu, i.op2, n)
    ensures i.op1.value < 8
    ensures var (result, carry) :=
              RepeatShift(if i.opcode == SHL then ShiftLeftOnce else ShiftRightOnce, s.cpu.r[i.op1.value], n);
            var t := Execute(s, i).state.cpu;
            && Execute(s, i).result == OK
            && t.r[i.op1.value] == result
            && GetFlag(t.flags, C) == carry
            && GetFlag(t.flags, Z) == (result == 0)
            && GetFlag(t.flags, S) == (Signed(result) < 0)
            && GetFlag(t.flags, O) == GetFlag(s.cpu.flags, O)
  {
    hide Execute, AluFlags, GetFlag, Signed, ReadOperand, LegalModes, ShiftLeft, ShiftRight, RepeatShift, ShiftLeftOnce,
      ShiftRightOnce;
    ExecuteAlu(s, i);
    SuppliedRead(s.cpu, i.op2, n);
    var a := s.cpu.r[i.op1.value];
    ShiftLeftIsIterated(a, n);
    ShiftRightIsIterated(a, n);
    AluFlagsReadBack(s.cpu.flags, Alu(i.opcode, a, n));
  }

  // ---- moves, memory, calls and system calls, in full ----

  /** MOV puts the word its second operand stands for in its register, and does nothing else. */
  lemma MoveMeaning(s: State, i: Instruction, v: word)
    requires WellFormed(i) && i.opcode == MOV && Supplies(s.cpu, i.op2, v)
    ensures i.op1.value < 8
    ensures Execute(s, i) == Outcome(s.(cpu := s.cpu.(r := s.cpu.r[i.op1.value := v])), OK)
  {
    hide ReadInt, Taken, ExecAlu, Write16, Read16, Wrap, ReadOperand;
    SuppliedRead(s.cpu, i.op2, v);
  }

  /** The operand names the address: it is written out, or held by the register in brackets. */
  predicate Addresses(c: CpuState, o: Operand, a: word) {
    (o.mode == MemDirect && o.value == a) || (o.mode == RegIndirect && o.value < 8 && c.r[o.value] == a)
  }

  lemma AddressRead(c: CpuState, o: Operand, a: word)
    requires Addresses(c, o, a)
    ensures ValueFits(o) && EffectiveAddress(c, o) == a
  {
  }

  lemma LittleEndian(m: Bytes, a: word, v: word)
    ensures Read16(m, a) == m[a] as int + 0x100 * m[(a + 1) % SIZE] as int
    ensures Write16(m, a, v) == m[a := v % 0x100][(a + 1) % SIZE := v / 0x100]
  {
  }

  /** LOAD puts the two bytes at its address, low byte first and the second address wrapping, in its register,
      and does nothing else. */
  lemma LoadMeaning(s: State, i: Instruction, a: word)
    requires WellFormed(i) && i.opcode == LOAD && Addresses(s.cpu, i.op2, a)
    ensures i.op1.value < 8
    ensures var v := s.mem[a] as int + 0x100 * s.mem[(a + 1) % SIZE] as int;
            v < 0x1_0000 && Execute(s, i) == Outcome(s.(cpu := s.cpu.(r := s.cpu.r[i.op1.value := v])), OK)
  {
    hide ReadInt, Taken, ExecAlu, Write16, Read16, Wrap, ReadOperand, EffectiveAddress;
    AddressRead(s.cpu, i.op2, a);
    LittleEndian(s.mem, a, 0);
  }

  /** STORE writes the two bytes of its register at its address, low byte first and the second address wrapping,
      and does nothing else. */
  lemma StoreMeaning(s: State, i: Instruction, a: word)
    requires WellFormed(i) && i.opcode == STORE && Addresses(s.cpu, i.op1, a)
    ensures i.op2.value < 8
    ensures var v := s.cpu.r[i.op2.value];
            Execute(s, i) == Outcome(s.(mem := s.mem[a := v % 0x100][(a + 1) % SIZE := v / 0x100]), OK)
  {
    hide ReadInt, Taken, ExecAlu, Write16, Read16, Wrap, ReadOperand, EffectiveAddress;
    AddressRead(s.cpu, i.op1, a);
    LittleEndian(s.mem, a, s.cpu.r[i.op2.value]);
  }

  predicate HasRoom(s: State) {
    s.cpu.sp >= 2 && s.cpu.sp - 2 >= s.stackLimit
  }

  /** CALL with room stores the address of the next instruction, where PC already stands, low byte first at SP,
      moves SP down by two and goes to its target; without room it changes nothing. */
  lemma CallMeaning(s: State, i: Instruction)
    requires WellFormed(i) && i.opcode == CALL
    ensures Execute(s, i) ==
            if HasRoom(s) then
              Outcome(s.(mem := s.mem[s.cpu.sp := s.cpu.pc % 0x100][(s.cpu.sp + 1) % SIZE := s.cpu.pc / 0x100],
                         cpu := s.cpu.(sp := s.cpu.sp - 2, pc := i.op1.value)), OK)
            else Outcome(s, StackOverflow)
  {
    hide ReadInt, Taken, ExecAlu, Write16, Read16, Wrap, ReadOperand, EffectiveAddress, LegalModes;
    LittleEndian(s.mem, s.cpu.sp, s.cpu.pc);
  }

  /** PUSH with room stores the word its operand stands for, low byte first at SP, and moves SP down by two;
      without room it changes nothing. */
  lemma PushMeaning(s: State, i: Instruction, v: word)
    requires WellFormed(i) && i.opcode == PUSH && Supplies(s.cpu, i.op1, v)
    ensures Execute(s, i) ==
            if HasRoom(s) then
              Outcome(s.(mem := s.mem[s.cpu.sp := v % 0x100][(s.cpu.sp + 1) % SIZE := v / 0x100],
                         cpu := s.cpu.(sp := s.cpu.sp - 2)), OK)
            else Outcome(s, StackOverflow)
  {
    hide ReadInt, Taken, ExecAlu, Write16, Read16, Wrap, ReadOperand, EffectiveAddress, LegalModes;
    SuppliedRead(s.cpu, i.op1, v);
    LittleEndian(s.mem, s.cpu.sp, v);
  }

  /** POP and RET fail exactly on the empty stack, SP being 0xFFFE; otherwise they move SP up by two and take the
      word there, low byte first, to the register or to PC. */
  lemma PopMeaning(s: State, i: Instruction)
    requires WellFormed(i) && (i.opcode == POP || i.opcode == RET)
    ensures i.opcode == POP ==> i.op1.value < 8
    ensures var sp := (s.cpu.sp + 2) % SIZE;
            var v := s.mem[sp] as int + 0x100 * s.mem[(sp + 1) % SIZE] as int;
            && v < 0x1_0000
            && Execute(s, i) ==
               if s.cpu.sp == 0xFFFE then Outcome(s, StackUnderflow)
               else if i.opcode == POP then Outcome(s.(cpu := s.cpu.(sp := sp, r := s.cpu.r[i.op1.value := v])), OK)
               else Outcome(s.(cpu := s.cpu.(sp := sp, pc := v)), OK)
  {
    hide ReadInt, Taken, ExecAlu, Write16, Read16, Wrap, ReadOperand, EffectiveAddress;
    LittleEndian(s.mem, (s.cpu.sp + 2) % SIZE, 0);
    TopAddress(s);
  }

  lemma TopAddress(s: State)
    ensures StackTop(s) == (s.cpu.sp + 2) % SIZE
  {
  }

  /** HALT and EXIT halt the machine and do nothing else; NOP does nothing; PRINT_INT and PRINT_CHAR append the
      signed reading of R0 and its low byte; any other code but READ_INT's is refused. */
  lemma SystemMeaning(s: State, i: Instruction)
    requires WellFormed(i)
    ensures i.opcode == NOP ==> Execute(s, i) == Outcome(s, OK)
    ensures i.opcode == HALT ==> Execute(s, i) == Outcome(s.(halted := true), OK)
    ensures i.opcode == SYS && i.op1.value == 4 ==> Execute(s, i) == Outcome(s.(halted := true), OK)
    ensures i.opcode == SYS && i.op1.value == 1 ==>
              Execute(s, i) == Outcome(s.(stdout := s.stdout + [PrintInt(Signed(s.cpu.r[0]))]), OK)
    ensures i.opcode == SYS && i.op1.value == 2 ==>
              Execute(s, i) == Outcome(s.(stdout := s.stdout + [PrintChar(s.cpu.r[0] % 0x100)]), OK)
    ensures i.opcode == SYS && i.op1.value !in {1, 2, 3, 4} ==> Execute(s, i) == Outcome(s, InvalidSyscall)
  {
    hide ReadInt, Taken, ExecAlu, Write16, Read16, Wrap, ReadOperand, EffectiveAddress, Signed, LegalModes;
  }

  // ---- pairs of instructions ----

  /** A LOAD from the address of a STORE, however either names it and at 0xFFFF as well, brings back the stored
      register. */
  lemma StoreThenLoad(s: State, st: Instruction, ld: Instruction, a: word)
    requires WellFormed(st) && WellFormed(ld) && st.opcode == STORE && ld.opcode == LOAD
    requires Addresses(s.cpu, st.op1, a) && Addresses(s.cpu, ld.op2, a)
    ensures st.op2.value < 8 && ld.op1.value < 8
    ensures var t := Execute(Execute(s, st).state, ld);
            && t.result == OK
            && t.state.cpu == s.cpu.(r := s.cpu.r[ld.op1.value := s.cpu.r[st.op2.value]])
  {
    hide Execute, LegalModes;
    StoreMeaning(s, st, a);
    LoadMeaning(Execute(s, st).state, ld, a);
  }

  /** A POP right after a PUSH that found room gives back the pushed word, whether it came from a register or was
      written out, and the stack pointer. */
  lemma PushThenPop(s: State, pu: Instruction, po: Instruction, v: word)
    requires WellFormed(pu) && WellFormed(po) && pu.opcode == PUSH && po.opcode == POP
    requires HasRoom(s) && Supplies(s.cpu, pu.op1, v)
    ensures po.op1.value < 8
    ensures var t := Execute(Execute(s, pu).state, po);
            && t.result == OK
            && t.state.cpu == s.cpu.(r := s.cpu.r[po.op1.value := v])
  {
    hide ReadInt, Taken, Alu, AluFlags, Write16, Read16, Wrap, ReadOperand;
    SuppliedRead(s.cpu, pu.op1, v);
    ReadBack(s.mem, s.cpu.sp, v);
    WrapSmall(s.cpu.sp);
  }

  function SyscallInstruction(code: word): Instruction {
    Instruction(SYS, Operand(Imm8, code), Operand(Absent, 0))
  }

  /** READ_INT then PRINT_INT prints the number that was typed whenever it fits in a signed word, and
      otherwise that number reduced to sixteen bits. */
  lemma ReadThenPrint(s: State, n: Numeral)
    requires n.Valid() && s.stdin == n.Input()
    ensures WellFormed(SyscallInstruction(3)) && WellFormed(SyscallInstruction(1))
    ensures var t := Execute(Execute(s, SyscallInstruction(3)).state, SyscallInstruction(1)).state;
            && t.stdin == n.rest
            && t.stdout == s.stdout + [PrintInt(Signed(Wrap(n.Value())))]
            && (-0x8000 <= n.Value() <= 0x7FFF ==> t.stdout == s.stdout + [PrintInt(n.Value())])
  {
    hide ReadInt, Taken, Alu, AluFlags, Write16, Read16, Wrap, Signed;
    ReadIntReads(n);
    SignedWraps(n.Value());
  }

  lemma SignedWraps(x: int)
    ensures -0x8000 <= x <= 0x7FFF ==> Signed(Wrap(x)) == x
  {
  }
}
