/** Pass 2: label values, range checks, and the bytes written into the two 64 KB
    section buffers (src/assembler/parser.c, resolve_value to emit_statement). */
module Emit {
  import opened Options
  import opened Words
  import opened Memory
  import opened Isa
  import opened Syntax
  import opened Layout

  /** A statement's value for an operand: its number, its register index, or its label's address. */
  function ResolveValue(kind: OperandKind, symbols: map<string, word>): Option<int> {
    match kind
    case RegisterOp(_) | IndirectOp(_) => Some(kind.index)
    case NumberOp(_) | MemNumberOp(_) => Some(kind.value)
    case LabelOp(_) | MemLabelOp(_) => if kind.name in symbols then Some(symbols[kind.name]) else None
  }

  predicate InRange(mode: Mode, value: int) {
    match mode
    case Imm16 | MemDirect => -32768 <= value <= 65535
    case Imm8 => 0 <= value <= 255
    case _ => true
  }

  datatype ValueResult = Value(v: int) | BadValue(line: nat, error: AsmError)

  /** The value pass 2 checks and encodes for one operand. */
  function OperandValue(op: ParsedOperand, mode: Mode, symbols: map<string, word>): ValueResult {
    match ResolveValue(op.kind, symbols)
    case None => BadValue(op.line, UndefinedLabel)
    case Some(v) => if InRange(mode, v) then Value(v) else BadValue(op.line, ImmediateOutOfRange)
  }

  function FirstValue(st: Statement, symbols: map<string, word>): ValueResult
    requires st.InstrStmt?
  {
    if |st.operands| >= 1 then OperandValue(st.operands[0], st.mode1, symbols) else Value(0)
  }

  function SecondValue(st: Statement, symbols: map<string, word>): ValueResult
    requires st.InstrStmt?
  {
    if |st.operands| >= 2 then OperandValue(st.operands[1], st.mode2, symbols) else Value(0)
  }

  /** The number is the word, read unsigned or signed. */
  predicate Reading(w: word, v: int) {
    v == w || v == Signed(w)
  }

  ghost predicate ReadsAsWord(v: int) {
    exists w: word :: Reading(w, v)
  }

  /** An operand is accepted exactly when its label is defined and its number has an encoding: a 16-bit field takes
      the unsigned and the signed readings of words, an 8-bit field the bytes. */
  lemma AcceptedExactly(op: ParsedOperand, mode: Mode, symbols: map<string, word>)
    requires mode in {Imm16, MemDirect, Imm8}
    ensures ResolveValue(op.kind, symbols).None? <==>
              (op.kind.LabelOp? || op.kind.MemLabelOp?) && op.kind.name !in symbols
    ensures ResolveValue(op.kind, symbols).None? ==>
              OperandValue(op, mode, symbols) == BadValue(op.line, UndefinedLabel)
    ensures ResolveValue(op.kind, symbols).Some? ==>
              var v := ResolveValue(op.kind, symbols).value;
              OperandValue(op, mode, symbols)
              == if (if mode == Imm8 then 0 <= v < 0x100 else ReadsAsWord(v)) then Value(v)
                 else BadValue(op.line, ImmediateOutOfRange)
  {
    if ResolveValue(op.kind, symbols).Some? {
      var v := ResolveValue(op.kind, symbols).value;
      WordReadings(v);
    }
    hide ReadsAsWord;
  }

  lemma WordReadings(v: int)
    ensures ReadsAsWord(v) <==> -32768 <= v <= 65535
  {
    if 0 <= v <= 65535 {
      assert Reading(v, v);
    } else if -32768 <= v < 0 {
      assert Reading(v + 65536, v);
    }
  }

  // ---- what a statement stands for ----

  datatype Encoding = Encoded(bytes: seq<byte>) | Unencodable(line: nat, error: AsmError)

  /** The machine instruction an accepted statement denotes. */
  function Denotes(st: Statement, v1: int, v2: int): Instruction
    requires st.InstrStmt?
  {
    Instruction(st.opcode, Operand(st.mode1, Wrap(v1)), Operand(st.mode2, Wrap(v2)))
  }

  function WordBytes(w: word): seq<byte> {
    [LowByte(w), HighByte(w)]
  }

  /** The bytes a statement contributes, wherever it lies. */
  function Meaning(st: Statement, symbols: map<string, word>): (r: Encoding)
    ensures r.Encoded? ==> |r.bytes| == Size(st)
  {
    match st
    case LabelStmt(_, _, _) | OrgStmt(_) | DataStmt(_) => Encoded([])
    case StringStmt(_, _, _, bytes) => Encoded(bytes + [0])
    case WordStmt(line, _, _, operand) =>
      (match ResolveValue(operand.kind, symbols)
       case None => Unencodable(line, UndefinedLabel)
       case Some(v) => Encoded(WordBytes(Wrap(v))))
    case ByteStmt(line, _, _, v) => if 0 <= v <= 255 then Encoded([v]) else Unencodable(line, ByteOutOfRange)
    case InstrStmt(_, _, _, _, _, _, _) =>
      match FirstValue(st, symbols)
      case BadValue(l, e) => Unencodable(l, e)
      case Value(v1) =>
        match SecondValue(st, symbols)
        case BadValue(l, e) => Unencodable(l, e)
        case Value(v2) => Encoded(Encode(Denotes(st, v1, v2)))
  }

  // ---- writing into the section buffers ----

  datatype Buffers = Buffers(code: Bytes, data: Bytes)

  function BlankBuffers(): Buffers {
    Buffers(Zeroed(), Zeroed())
  }

  datatype EmitResult = Emitted(buffers: Buffers) | EmitError(line: nat, error: AsmError)

  /** Bytes written to consecutive cells of a buffer; past the last cell C's behaviour is undefined
      and the model stops. */
  function Put(buffer: Bytes, index: nat, bytes: seq<byte>): Option<Bytes> {
    if index + |bytes| <= SIZE then Some(Overlay(buffer, index, bytes)) else None
  }

  /** Opcode and mode byte, then each operand at an address that wraps at 16 bits. */
  function PutInstruction(buffer: Bytes, addr: word, i: Instruction): Option<Bytes> {
    match Put(buffer, addr, [Code(i.opcode), ModeByte(i.op1.mode, i.op2.mode)])
    case None => None
    case Some(b1) =>
      var addr1 := Wrap(addr + 2);
      match Put(b1, addr1, OperandBytes(i.op1.mode, i.op1.value))
      case None => None
      case Some(b2) => Put(b2, Wrap(addr1 + ModeSize(i.op1.mode)), OperandBytes(i.op2.mode, i.op2.value))
  }

  function Target(b: Buffers, inData: bool): Bytes {
    if inData then b.data else b.code
  }

  function WithTarget(b: Buffers, inData: bool, m: Bytes): Buffers {
    if inData then b.(data := m) else b.(code := m)
  }

  function Finish(st: Statement, b: Buffers, written: Option<Bytes>): EmitResult
    requires Sized(st)
  {
    match written
    case None => EmitError(st.line, Overrun)
    case Some(m) => Emitted(WithTarget(b, st.inData, m))
  }

  function EmitStatement(st: Statement, symbols: map<string, word>, b: Buffers): EmitResult {
    if !Sized(st) then Emitted(b)
    else
      var target := Target(b, st.inData);
      match st
      case InstrStmt(_, _, _, _, _, _, _) =>
        (match FirstValue(st, symbols)
         case BadValue(l, e) => EmitError(l, e)
         case Value(v1) =>
           match SecondValue(st, symbols)
           case BadValue(l, e) => EmitError(l, e)
           case Value(v2) => Finish(st, b, PutInstruction(target, st.address, Denotes(st, v1, v2))))
      case _ =>
        match Meaning(st, symbols)
        case Unencodable(l, e) => EmitError(l, e)
        case Encoded(bytes) => Finish(st, b, Put(target, st.address, bytes))
  }

  function EmitAll(sts: seq<Statement>, symbols: map<string, word>, b: Buffers): EmitResult
    decreases |sts|
  {
    if sts == [] then Emitted(b)
    else
      match EmitStatement(sts[0], symbols, b)
      case EmitError(l, e) => EmitError(l, e)
      case Emitted(b') => EmitAll(sts[1..], symbols, b')
  }

  // ---- writing is laying the meaning over the buffer ----

  lemma PutInstructionWrites(buffer: Bytes, addr: word, i: Instruction)
    requires addr + |Encode(i)| <= SIZE
    ensures PutInstruction(buffer, addr, i) == Some(Overlay(buffer, addr, Encode(i)))
  {
    hide Overlay, Code, ModeByte, OperandBytes;
    var head := [Code(i.opcode), ModeByte(i.op1.mode, i.op2.mode)];
    var x, y := OperandBytes(i.op1.mode, i.op1.value), OperandBytes(i.op2.mode, i.op2.value);
    OverlayJoin(buffer, addr, head, x);
    OverlayJoin(buffer, addr, head + x, y);
    OverlayNothing(Overlay(buffer, addr, head), addr + 2);
    OverlayNothing(Overlay(buffer, addr, head + x), addr + 2 + |x|);
    PutOperand(Overlay(buffer, addr, head), addr + 2, x);
    PutOperand(Overlay(buffer, addr, head + x), addr + 2 + |x|, y);
    WrapAdd(addr + 2, |x|);
  }

  /** A wrapped address matters only when it is 65536, and then nothing is written there. */
  lemma PutOperand(m: Bytes, a: nat, x: seq<byte>)
    requires a + |x| <= SIZE
    ensures Put(m, Wrap(a), x) == Some(Overlay(m, a, x))
  {
    if a == SIZE {
      OverlayNothing(m, a);
      assert x == [];
    } else {
      WrapSmall(a);
    }
    hide Overlay, Wrap;
  }

  /** Emission succeeds exactly on encodable statements that fit below the top of the buffer, and
      then writes their bytes at their address and nothing else. */
  lemma EmitIsOverlay(st: Statement, symbols: map<string, word>, b: Buffers)
    requires Sized(st) && st.address + Size(st) <= SIZE
    ensures EmitStatement(st, symbols, b) ==
            match Meaning(st, symbols)
            case Unencodable(l, e) => EmitError(l, e)
            case Encoded(bytes) => Emitted(WithTarget(b, st.inData, Overlay(Target(b, st.inData), st.address, bytes)))
  {
    hide Overlay, PutInstruction, FirstValue, SecondValue, Encode;
    if st.InstrStmt? && Meaning(st, symbols).Encoded? {
      var v1, v2 := FirstValue(st, symbols).v, SecondValue(st, symbols).v;
      PutInstructionWrites(Target(b, st.inData), st.address, Denotes(st, v1, v2));
    }
  }

  lemma {:induction false} EmitAllConcat(x: seq<Statement>, y: seq<Statement>, symbols: map<string, word>, b: Buffers)
    ensures EmitAll(x + y, symbols, b) ==
            match EmitAll(x, symbols, b)
            case EmitError(l, e) => EmitError(l, e)
            case Emitted(c) => EmitAll(y, symbols, c)
    decreases |x|
  {
    hide EmitStatement;
    if x == [] {
      assert x + y == y;
    } else {
      assert (x + y)[1..] == x[1..] + y;
      if EmitStatement(x[0], symbols, b).Emitted? {
        EmitAllConcat(x[1..], y, symbols, EmitStatement(x[0], symbols, b).buffers);
      }
    }
  }

  lemma OneEmit(st: Statement, symbols: map<string, word>, b: Buffers)
    ensures EmitAll([st], symbols, b) == EmitStatement(st, symbols, b)
  {
    hide EmitStatement;
    assert [st][1..] == [];
  }
}
