/** The instruction set: opcodes, addressing modes, the legality table, and the
    binary encoding with its decoder (include/bytevm/opcode.h, src/instruction.c). */
module Isa {
  import opened Options
  import opened Words
  import opened Memory

  datatype VmResult =
    | OK
    | InvalidOpcode
    | InvalidMode
    | DivByZero
    | StackOverflow
    | StackUnderflow
    | BadHeader
    | InvalidSyscall

  datatype Opcode =
    | NOP | MOV | ADD | SUB | MUL | DIV | MOD | AND | OR | XOR | NOT | SHL | SHR | LOAD | STORE | PUSH | POP
    | CMP | JMP | JZ | JNZ | JG | JGE | JL | JLE | JB | JAE | JA | JBE | CALL | RET | SYS | HALT

  function Code(op: Opcode): byte {
    match op
    case NOP => 0x00 case MOV => 0x01 case ADD => 0x02 case SUB => 0x03 case MUL => 0x04
    case DIV => 0x05 case MOD => 0x06 case AND => 0x07 case OR => 0x08 case XOR => 0x09
    case NOT => 0x0A case SHL => 0x0B case SHR => 0x0C case LOAD => 0x0D case STORE => 0x0E
    case PUSH => 0x0F case POP => 0x10 case CMP => 0x11 case JMP => 0x12 case JZ => 0x13
    case JNZ => 0x14 case JG => 0x15 case JGE => 0x16 case JL => 0x17 case JLE => 0x18
    case JB => 0x19 case JAE => 0x1A case JA => 0x1B case JBE => 0x1C case CALL => 0x1D
    case RET => 0x1E case SYS => 0x1F case HALT => 0xFF
  }

  /** The valid rows of the 256-entry opcode table. */
  function OpcodeAt(b: byte): Option<Opcode> {
    match b
    case 0x00 => Some(NOP) case 0x01 => Some(MOV) case 0x02 => Some(ADD) case 0x03 => Some(SUB)
    case 0x04 => Some(MUL) case 0x05 => Some(DIV) case 0x06 => Some(MOD) case 0x07 => Some(AND)
    case 0x08 => Some(OR) case 0x09 => Some(XOR) case 0x0A => Some(NOT) case 0x0B => Some(SHL)
    case 0x0C => Some(SHR) case 0x0D => Some(LOAD) case 0x0E => Some(STORE) case 0x0F => Some(PUSH)
    case 0x10 => Some(POP) case 0x11 => Some(CMP) case 0x12 => Some(JMP) case 0x13 => Some(JZ)
    case 0x14 => Some(JNZ) case 0x15 => Some(JG) case 0x16 => Some(JGE) case 0x17 => Some(JL)
    case 0x18 => Some(JLE) case 0x19 => Some(JB) case 0x1A => Some(JAE) case 0x1B => Some(JA)
    case 0x1C => Some(JBE) case 0x1D => Some(CALL) case 0x1E => Some(RET) case 0x1F => Some(SYS)
    case 0xFF => Some(HALT) case _ => None
  }

  lemma CodeDecodes(op: Opcode)
    ensures OpcodeAt(Code(op)) == Some(op)
  {
  }

  lemma OpcodeEncodes(b: byte)
    ensures OpcodeAt(b).Some? ==> Code(OpcodeAt(b).value) == b
  {
  }

  datatype Mode = Absent | Reg | Imm16 | MemDirect | RegIndirect | Imm8

  type nibble = n: int | 0 <= n < 16

  function Nibble(m: Mode): nibble {
    match m
    case Absent => 0 case Reg => 1 case Imm16 => 2 case MemDirect => 3 case RegIndirect => 4 case Imm8 => 5
  }

  /** The nibbles 6 to 15 name no mode. */
  function ModeOf(n: nibble): Option<Mode> {
    match n
    case 0 => Some(Absent) case 1 => Some(Reg) case 2 => Some(Imm16) case 3 => Some(MemDirect)
    case 4 => Some(RegIndirect) case 5 => Some(Imm8) case _ => None
  }

  /** How many operand bytes a mode consumes. */
  function ModeSize(m: Mode): nat {
    match m
    case Absent => 0
    case Reg | RegIndirect | Imm8 => 1
    case Imm16 | MemDirect => 2
  }

  /** The bit mask over the six modes, a field for each bit. */
  datatype ModeMask = ModeMask(absent: bool, reg: bool, imm16: bool, memDirect: bool, regIndirect: bool, imm8: bool) {
    predicate Allows(m: Mode) {
      match m
      case Absent => absent
      case Reg => reg
      case Imm16 => imm16
      case MemDirect => memDirect
      case RegIndirect => regIndirect
      case Imm8 => imm8
    }
  }

  const MODES_NONE := ModeMask(true, false, false, false, false, false)
  const MODES_REG := ModeMask(false, true, false, false, false, false)
  const MODES_REG_IMM16 := ModeMask(false, true, true, false, false, false)
  const MODES_MEM := ModeMask(false, false, false, true, true, false)
  const MODES_MEM_DIRECT := ModeMask(false, false, false, true, false, false)
  const MODES_IMM8 := ModeMask(false, false, false, false, false, true)

  /** The legality table: the modes allowed for each operand of an opcode. */
  function LegalModes(op: Opcode): (ModeMask, ModeMask) {
    match op
    case NOP | RET | HALT => (MODES_NONE, MODES_NONE)
    case MOV | ADD | SUB | MUL | DIV | MOD | AND | OR | XOR | SHL | SHR => (MODES_REG, MODES_REG_IMM16)
    case NOT | POP => (MODES_REG, MODES_NONE)
    case LOAD => (MODES_REG, MODES_MEM)
    case STORE => (MODES_MEM, MODES_REG)
    case PUSH => (MODES_REG_IMM16, MODES_NONE)
    case CMP => (MODES_REG_IMM16, MODES_REG_IMM16)
    case JMP | JZ | JNZ | JG | JGE | JL | JLE | JB | JAE | JA | JBE | CALL => (MODES_MEM_DIRECT, MODES_NONE)
    case SYS => (MODES_IMM8, MODES_NONE)
  }

  /** The pairs of modes the design's normative table lists for an opcode. */
  predicate Listed(op: Opcode, m1: Mode, m2: Mode) {
    if op in {NOP, RET, HALT} then m1 == Absent && m2 == Absent
    else if op in {NOT, POP} then m1 == Reg && m2 == Absent
    else if op == LOAD then m1 == Reg && m2 in {MemDirect, RegIndirect}
    else if op == STORE then m1 in {MemDirect, RegIndirect} && m2 == Reg
    else if op == PUSH then m1 in {Reg, Imm16} && m2 == Absent
    else if op == CMP then m1 in {Reg, Imm16} && m2 in {Reg, Imm16}
    else if op == SYS then m1 == Imm8 && m2 == Absent
    else if op in {MOV, ADD, SUB, MUL, DIV, MOD, AND, OR, XOR, SHL, SHR} then m1 == Reg && m2 in {Reg, Imm16}
    else m1 == MemDirect && m2 == Absent
  }

  /** Exactly the listed pairs are legal. */
  lemma LegalIsListed(op: Opcode, m1: Mode, m2: Mode)
    ensures LegalModes(op).0.Allows(m1) && LegalModes(op).1.Allows(m2) <==> Listed(op, m1, m2)
  {
  }

  datatype Operand = Operand(mode: Mode, value: word)

  datatype Instruction = Instruction(opcode: Opcode, op1: Operand, op2: Operand)

  predicate ValueFits(o: Operand) {
    match o.mode
    case Absent => o.value == 0
    case Reg | RegIndirect => o.value < 8
    case Imm8 => o.value < 0x100
    case Imm16 | MemDirect => true
  }

  /** Legal modes for the opcode, and operand values the modes can carry. */
  predicate WellFormed(i: Instruction) {
    && LegalModes(i.opcode).0.Allows(i.op1.mode) && ValueFits(i.op1)
    && LegalModes(i.opcode).1.Allows(i.op2.mode) && ValueFits(i.op2)
  }

  // ---- encoding ----

  function OperandBytes(mode: Mode, value: word): (r: seq<byte>)
    ensures |r| == ModeSize(mode)
  {
    match mode
    case Absent => []
    case Reg | RegIndirect | Imm8 => [LowByte(value)]
    case Imm16 | MemDirect => [LowByte(value), HighByte(value)]
  }

  function ModeByte(m1: Mode, m2: Mode): byte {
    16 * Nibble(m1) + Nibble(m2)
  }

  function Encode(i: Instruction): (r: seq<byte>)
    ensures |r| == 2 + ModeSize(i.op1.mode) + ModeSize(i.op2.mode)
  {
    [Code(i.opcode), ModeByte(i.op1.mode, i.op2.mode)]
    + OperandBytes(i.op1.mode, i.op1.value) + OperandBytes(i.op2.mode, i.op2.value)
  }

  // ---- decoding ----

  datatype DecodedOperand = GotOperand(operand: Operand, next: word) | BadOperand

  function DecodeOperand(m: Bytes, addr: word, mode: Mode): DecodedOperand {
    match mode
    case Absent => GotOperand(Operand(mode, 0), addr)
    case Reg | RegIndirect =>
      if m[addr] > 7 then BadOperand else GotOperand(Operand(mode, m[addr]), Wrap(addr + 1))
    case Imm8 => GotOperand(Operand(mode, m[addr]), Wrap(addr + 1))
    case Imm16 | MemDirect => GotOperand(Operand(mode, Read16(m, addr)), Wrap(addr + 2))
  }

  datatype Decoding = Decoded(instr: Instruction, next: word) | Undecodable(error: VmResult)

  predicate NibbleLegal(n: nibble, legal: ModeMask) {
    ModeOf(n).Some? && legal.Allows(ModeOf(n).value)
  }

  /** The operand bytes, once the opcode and both modes are known to be legal. */
  function DecodeOperands(m: Bytes, op: Opcode, m1: Mode, m2: Mode, addr: word): Decoding {
    match DecodeOperand(m, addr, m1)
    case BadOperand => Undecodable(InvalidMode)
    case GotOperand(o1, addr1) =>
      match DecodeOperand(m, addr1, m2)
      case BadOperand => Undecodable(InvalidMode)
      case GotOperand(o2, addr2) => Decoded(Instruction(op, o1, o2), addr2)
  }

  function Decode(m: Bytes, pc: word): Decoding {
    match OpcodeAt(m[pc])
    case None => Undecodable(InvalidOpcode)
    case Some(op) =>
      var modes := m[Wrap(pc + 1)];
      var legal := LegalModes(op);
      if !NibbleLegal(modes / 16, legal.0) || !NibbleLegal(modes % 16, legal.1) then Undecodable(InvalidMode)
      else DecodeOperands(m, op, ModeOf(modes / 16).value, ModeOf(modes % 16).value, Wrap(pc + 2))
  }

  /** A decoded operand fits its mode, and its bytes are the ones consumed. */
  lemma OperandDecodes(m: Bytes, addr: word, mode: Mode)
    requires DecodeOperand(m, addr, mode).GotOperand?
    ensures var GotOperand(o, next) := DecodeOperand(m, addr, mode);
            && o.mode == mode && ValueFits(o) && next == Wrap(addr + ModeSize(mode))
            && Window(m, addr, ModeSize(mode)) == OperandBytes(mode, o.value)
  {
    ShortWindows(m, addr);
    Read16Bytes(m, addr);
  }

  /** An operand's bytes, found at `addr`, decode to that operand. */
  lemma OperandEncodes(m: Bytes, addr: word, o: Operand)
    requires ValueFits(o)
    requires Window(m, addr, ModeSize(o.mode)) == OperandBytes(o.mode, o.value)
    ensures DecodeOperand(m, addr, o.mode) == GotOperand(o, Wrap(addr + ModeSize(o.mode)))
  {
    ShortWindows(m, addr);
    var w := OperandBytes(o.mode, o.value);
    if ModeSize(o.mode) == 1 {
      assert m[addr] == w[0];
    } else if ModeSize(o.mode) == 2 {
      assert m[addr] == w[0] && m[Wrap(addr + 1)] == w[1];
      SplitThenJoin(o.value);
    }
  }

  /** Both operands of a decoded instruction, and the bytes they came from. */
  lemma OperandsDecode(m: Bytes, op: Opcode, m1: Mode, m2: Mode, addr: word)
    requires DecodeOperands(m, op, m1, m2, addr).Decoded?
    ensures var Decoded(i, next) := DecodeOperands(m, op, m1, m2, addr);
            && i.opcode == op && i.op1.mode == m1 && i.op2.mode == m2 && ValueFits(i.op1) && ValueFits(i.op2)
            && next == Wrap(addr + (ModeSize(m1) + ModeSize(m2)))
            && Window(m, addr, ModeSize(m1) + ModeSize(m2))
               == OperandBytes(m1, i.op1.value) + OperandBytes(m2, i.op2.value)
  {
    OperandDecodes(m, addr, m1);
    OperandDecodes(m, Wrap(addr + ModeSize(m1)), m2);
    WindowSplit(m, addr, ModeSize(m1), ModeSize(m2));
    WrapAdd(addr + ModeSize(m1), ModeSize(m2));
  }

  lemma OperandsEncode(m: Bytes, op: Opcode, o1: Operand, o2: Operand, addr: word)
    requires ValueFits(o1) && ValueFits(o2)
    requires Window(m, addr, ModeSize(o1.mode) + ModeSize(o2.mode))
          == OperandBytes(o1.mode, o1.value) + OperandBytes(o2.mode, o2.value)
    ensures DecodeOperands(m, op, o1.mode, o2.mode, addr)
         == Decoded(Instruction(op, o1, o2), Wrap(addr + (ModeSize(o1.mode) + ModeSize(o2.mode))))
  {
    hide DecodeOperand, OperandBytes, Window, Wrap, ValueFits, ModeSize;
    var j, k := ModeSize(o1.mode), ModeSize(o2.mode);
    WindowSplit(m, addr, j, k);
    AppendInjective(Window(m, addr, j), Window(m, Wrap(addr + j), k),
                    OperandBytes(o1.mode, o1.value), OperandBytes(o2.mode, o2.value));
    OperandEncodes(m, addr, o1);
    OperandEncodes(m, Wrap(addr + j), o2);
    WrapAdd(addr + j, k);
  }

  lemma AppendInjective(a: seq<byte>, b: seq<byte>, c: seq<byte>, d: seq<byte>)
    requires |a| == |c| && a + b == c + d
    ensures a == c && b == d
  {
    assert (a + b)[..|a|] == (c + d)[..|a|];
    assert (a + b)[|a|..] == (c + d)[|a|..];
  }

  lemma WindowHead(m: Bytes, pc: word, n: nat)
    ensures Window(m, pc, 2 + n) == [m[pc], m[Wrap(pc + 1)]] + Window(m, Wrap(pc + 2), n)
  {
    WindowSplit(m, pc, 2, n);
    ShortWindows(m, pc);
  }

  lemma ModeBytes(m1: Mode, m2: Mode, b: byte)
    ensures ModeOf(ModeByte(m1, m2) / 16) == Some(m1) && ModeOf(ModeByte(m1, m2) % 16) == Some(m2)
    ensures ModeOf(b / 16) == Some(m1) && ModeOf(b % 16) == Some(m2) ==> ModeByte(m1, m2) == b
  {
    assert ModeByte(m1, m2) / 16 == Nibble(m1);
  }

  /** Whatever decodes is well formed, and re-encodes to exactly the bytes consumed. */
  lemma DecodeThenEncode(m: Bytes, pc: word)
    requires Decode(m, pc).Decoded?
    ensures var Decoded(i, next) := Decode(m, pc);
            && WellFormed(i)
            && Window(m, pc, |Encode(i)|) == Encode(i)
            && next == Wrap(pc + |Encode(i)|)
  {
    hide DecodeOperands, OperandBytes, Window, Wrap, Code, OpcodeAt, LegalModes, ValueFits, ModeOf, ModeByte, ModeSize;
    var Decoded(i, next) := Decode(m, pc);
    var b := m[Wrap(pc + 1)];
    OpcodeEncodes(m[pc]);
    var op := OpcodeAt(m[pc]).value;
    var m1, m2 := ModeOf(b / 16).value, ModeOf(b % 16).value;
    ModeBytes(m1, m2, b);
    OperandsDecode(m, op, m1, m2, Wrap(pc + 2));
    WrapAdd(pc + 2, ModeSize(m1) + ModeSize(m2));
    WindowHead(m, pc, ModeSize(m1) + ModeSize(m2));
  }

  /** A well-formed instruction's bytes, wherever they lie, decode to it and advance past it. */
  lemma EncodeThenDecode(m: Bytes, pc: word, i: Instruction)
    requires WellFormed(i)
    requires Window(m, pc, |Encode(i)|) == Encode(i)
    ensures Decode(m, pc) == Decoded(i, Wrap(pc + |Encode(i)|))
  {
    hide DecodeOperands, OperandBytes, Window, Wrap, Code, OpcodeAt, LegalModes, ValueFits, ModeOf, ModeByte, ModeSize;
    var n := ModeSize(i.op1.mode) + ModeSize(i.op2.mode);
    WindowHead(m, pc, n);
    var e := Encode(i);
    assert e == e[..2] + e[2..];
    AppendInjective([m[pc], m[Wrap(pc + 1)]], Window(m, Wrap(pc + 2), n), e[..2], e[2..]);
    assert m[pc] == e[0] && m[Wrap(pc + 1)] == e[1];
    CodeDecodes(i.opcode);
    ModeBytes(i.op1.mode, i.op2.mode, 0);
    OperandsEncode(m, i.opcode, i.op1, i.op2, Wrap(pc + 2));
    WrapAdd(pc + 2, n);
  }

  /** The bytes at `pc` begin the encoding of a legal instruction. */
  ghost predicate EncodedAt(m: Bytes, pc: word, i: Instruction) {
    WellFormed(i) && Window(m, pc, |Encode(i)|) == Encode(i)
  }

  /** Decoding fails exactly when no legal instruction is encoded there: with an invalid opcode when the first
      byte is no opcode's, and with an invalid mode otherwise. */
  lemma DecodeFailsExactly(m: Bytes, pc: word)
    ensures Decode(m, pc).Undecodable? <==> forall i: Instruction :: !EncodedAt(m, pc, i)
    ensures Decode(m, pc) == Undecodable(InvalidOpcode) <==> forall op: Opcode :: Code(op) != m[pc]
    ensures Decode(m, pc).Undecodable? && (exists op: Opcode :: Code(op) == m[pc]) ==>
              Decode(m, pc) == Undecodable(InvalidMode)
  {
    DecodeErrors(m, pc);
    hide Decode, Encode, WellFormed, Window, Code, OpcodeAt;
    if Decode(m, pc).Decoded? {
      DecodeThenEncode(m, pc);
      assert EncodedAt(m, pc, Decode(m, pc).instr);
    }
    forall i: Instruction | EncodedAt(m, pc, i) ensures Decode(m, pc).Decoded? {
      EncodeThenDecode(m, pc, i);
    }
    OpcodeEncodes(m[pc]);
    if OpcodeAt(m[pc]).Some? {
      assert Code(OpcodeAt(m[pc]).value) == m[pc];
    }
    forall op: Opcode | Code(op) == m[pc] ensures OpcodeAt(m[pc]).Some? {
      CodeDecodes(op);
    }
  }

  lemma DecodeErrors(m: Bytes, pc: word)
    ensures Decode(m, pc) == Undecodable(InvalidOpcode) <==> OpcodeAt(m[pc]).None?
    ensures Decode(m, pc).Undecodable? && OpcodeAt(m[pc]).Some? ==> Decode(m, pc) == Undecodable(InvalidMode)
  {
    hide OpcodeAt, LegalModes, DecodeOperand, NibbleLegal;
  }

  /** The worked encodings of the design: `MOV R0, 10`, `ADD R0, R1` and `LOAD R2, [0x2000]`; then `LOAD R0, [R1]`,
      `STORE [R1], R0`, `SYS PRINT_INT` and `HALT`. */
  lemma WorkedEncodings()
    ensures Encode(Instruction(MOV, Operand(Reg, 0), Operand(Imm16, 10))) == [0x01, 0x12, 0x00, 0x0A, 0x00]
    ensures Encode(Instruction(ADD, Operand(Reg, 0), Operand(Reg, 1))) == [0x02, 0x11, 0x00, 0x01]
    ensures Encode(Instruction(LOAD, Operand(Reg, 2), Operand(MemDirect, 0x2000))) == [0x0D, 0x13, 0x02, 0x00, 0x20]
  {
  }

  lemma MoreWorkedEncodings()
    ensures Encode(Instruction(LOAD, Operand(Reg, 0), Operand(RegIndirect, 1))) == [0x0D, 0x14, 0x00, 0x01]
    ensures Encode(Instruction(STORE, Operand(RegIndirect, 1), Operand(Reg, 0))) == [0x0E, 0x41, 0x01, 0x00]
    ensures Encode(Instruction(SYS, Operand(Imm8, 1), Operand(Absent, 0))) == [0x1F, 0x50, 0x01]
    ensures Encode(Instruction(HALT, Operand(Absent, 0), Operand(Absent, 0))) == [0xFF, 0x00]
  {
  }

  // ---- the opcode bytes of the reference table; no other byte is an opcode ----

  lemma OnlyOpcodes(b: byte)
    ensures OpcodeAt(b).Some? <==> b <= 0x1F || b == 0xFF
  {
  }

  lemma ArithmeticOpcodes()
    ensures Code(ADD) == 0x02 && Code(SUB) == 0x03 && Code(MUL) == 0x04 && Code(DIV) == 0x05 && Code(MOD) == 0x06
    ensures Code(CMP) == 0x11
  {
  }

  lemma BitwiseOpcodes()
    ensures Code(AND) == 0x07 && Code(OR) == 0x08 && Code(XOR) == 0x09 && Code(NOT) == 0x0A
    ensures Code(SHL) == 0x0B && Code(SHR) == 0x0C
  {
  }

  lemma MoveOpcodes()
    ensures Code(NOP) == 0x00 && Code(MOV) == 0x01 && Code(LOAD) == 0x0D && Code(STORE) == 0x0E
    ensures Code(PUSH) == 0x0F && Code(POP) == 0x10
  {
  }

  lemma JumpOpcodes()
    ensures Code(JMP) == 0x12 && Code(JZ) == 0x13 && Code(JNZ) == 0x14 && Code(JG) == 0x15 && Code(JGE) == 0x16
    ensures Code(JL) == 0x17
  {
  }

  lemma MoreJumpOpcodes()
    ensures Code(JLE) == 0x18 && Code(JB) == 0x19 && Code(JAE) == 0x1A && Code(JA) == 0x1B && Code(JBE) == 0x1C
  {
  }

  lemma ControlOpcodes()
    ensures Code(CALL) == 0x1D && Code(RET) == 0x1E && Code(SYS) == 0x1F && Code(HALT) == 0xFF
  {
  }

  // ---- the decoder as the interpreter runs it, on the memory array ----

  method FetchOperand(mem: Ram, addr: word, mode: Mode) returns (result: VmResult, next: word, operand: Operand)
    requires mem.Valid()
    ensures match DecodeOperand(mem.Contents(), addr, mode)
            case BadOperand => result == InvalidMode
            case GotOperand(o, n) => result == OK && operand == o && next == n
  {
    result, next, operand := OK, addr, Operand(mode, 0);
    match mode {
      case Absent =>
      case Reg | RegIndirect =>
        var index := mem.Read8(next);
        next := Wrap(next + 1);
        if index > 7 {
          return InvalidMode, next, operand;
        }
        operand := Operand(mode, index);
      case Imm8 =>
        var value := mem.Read8(next);
        operand := Operand(mode, value);
        next := Wrap(next + 1);
      case Imm16 | MemDirect =>
        var value := mem.LoadWord(next);
        operand := Operand(mode, value);
        next := Wrap(next + 2);
    }
  }

  /** `next` is the program counter after the call: advanced on success, `pc` itself on a fault. */
  method Fetch(mem: Ram, pc: word) returns (result: VmResult, next: word, instr: Instruction)
    requires mem.Valid()
    ensures match Decode(mem.Contents(), pc)
            case Undecodable(e) => result == e && next == pc && result != OK
            case Decoded(i, n) => result == OK && instr == i && next == n
  {
    var blank := Operand(Absent, 0);
    next, instr := pc, Instruction(NOP, blank, blank);
    var addr: word := pc;
    var opcodeByte := mem.Read8(addr);
    var row := OpcodeAt(opcodeByte);
    if row.None? {
      return InvalidOpcode, next, instr;
    }
    addr := Wrap(addr + 1);
    var modeByte := mem.Read8(addr);
    var legal := LegalModes(row.value);
    addr := Wrap(addr + 1);
    assert addr == Wrap(pc + 2);
    if !NibbleLegal(modeByte / 16, legal.0) {
      return InvalidMode, next, instr;
    }
    if !NibbleLegal(modeByte % 16, legal.1) {
      return InvalidMode, next, instr;
    }
    var op1, op2;
    result, addr, op1 := FetchOperand(mem, addr, ModeOf(modeByte / 16).value);
    if result != OK {
      return result, next, instr;
    }
    result, addr, op2 := FetchOperand(mem, addr, ModeOf(modeByte % 16).value);
    if result != OK {
      return result, next, instr;
    }
    instr := Instruction(row.value, op1, op2);
    next := addr;
  }
}
