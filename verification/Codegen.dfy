/** Pass 2 and the writing of the image, in place: bytes stored into two 64 KB
    buffers, then copied behind a header (src/assembler/parser.c, emit_operand_bytes to
    assemble_tokens; src/assembler.c). */
module Codegen {
  import opened Options
  import opened Words
  import opened Memory
  import opened Isa
  import opened Lexer
  import opened LexLoop
  import opened Syntax
  import opened Layout
  import opened Emit
  import opened Assembler
  import opened Parser
  import opened Symtab
  import Loader

  /** `resolve_value` against the table object. */
  method Resolve(kind: OperandKind, symtab: SymbolTable) returns (value: Option<int>)
    requires symtab.Valid()
    ensures value == ResolveValue(kind, symtab.Table())
  {
    match kind {
      case RegisterOp(index) => value := Some(index);
      case IndirectOp(index) => value := Some(index);
      case NumberOp(v) => value := Some(v);
      case MemNumberOp(v) => value := Some(v);
      case LabelOp(name) =>
        var found, address := symtab.Lookup(name);
        value := if found then Some(address) else None;
      case MemLabelOp(name) =>
        var found, address := symtab.Lookup(name);
        value := if found then Some(address) else None;
    }
  }

  method ResolveOperand(op: ParsedOperand, mode: Mode, symtab: SymbolTable) returns (r: ValueResult)
    requires symtab.Valid()
    ensures r == OperandValue(op, mode, symtab.Table())
  {
    var value := Resolve(op.kind, symtab);
    if value.None? {
      return BadValue(op.line, UndefinedLabel);
    }
    if !InRange(mode, value.value) {
      return BadValue(op.line, ImmediateOutOfRange);
    }
    r := Value(value.value);
  }

  /** Stores bytes from `index` on; refuses, leaving the rest to C's undefined behaviour, past the last cell. */
  method Store(target: array<byte>, index: nat, bytes: seq<byte>) returns (ok: bool)
    requires target.Length == SIZE
    modifies target
    ensures ok == (index + |bytes| <= SIZE)
    ensures ok ==> Put(old(target[..]), index, bytes) == Some(target[..])
  {
    if index + |bytes| > SIZE {
      return false;
    }
    ghost var before: Bytes := target[..];
    var k := 0;
    while k < |bytes|
      invariant 0 <= k <= |bytes|
      invariant target[..] == Overlay(before, index, bytes[..k])
    {
      target[index + k] := bytes[k];
      assert bytes[..k + 1] == bytes[..k] + [bytes[k]];
      OverlayJoin(before, index, bytes[..k], [bytes[k]]);
      k := k + 1;
    }
    assert bytes[..k] == bytes;
    return true;
  }

  /** One operand's bytes at `addr`, and the address after them. */
  method EmitOperandBytes(target: array<byte>, addr: word, mode: Mode, value: int) returns (ok: bool, next: word)
    requires target.Length == SIZE
    modifies target
    ensures var written := Put(old(target[..]), addr, OperandBytes(mode, Wrap(value)));
            && ok == written.Some?
            && (ok ==> written == Some(target[..]) && next == Wrap(addr + ModeSize(mode)))
  {
    hide LowByte, HighByte;
    match mode {
      case Absent => ok := Store(target, addr, []);
      case Reg | RegIndirect | Imm8 => ok := Store(target, addr, [LowByte(Wrap(value))]);
      case Imm16 | MemDirect =>
        var v16 := Wrap(value);
        ok := Store(target, addr, [LowByte(v16), HighByte(v16)]);
    }
    next := Wrap(addr + ModeSize(mode));
  }

  /** Opcode, mode byte and both operands. */
  method EmitEncoded(target: array<byte>, addr: word, st: Statement, v1: int, v2: int) returns (ok: bool)
    requires target.Length == SIZE && st.InstrStmt?
    modifies target
    ensures var written := PutInstruction(old(target[..]), addr, Denotes(st, v1, v2));
            ok == written.Some? && (ok ==> written == Some(target[..]))
  {
    hide Put, OperandBytes, Code, ModeByte, Wrap;
    ok := Store(target, addr, [Code(st.opcode), ModeByte(st.mode1, st.mode2)]);
    PutSucceeds(old(target[..]), addr, [Code(st.opcode), ModeByte(st.mode1, st.mode2)]);
    if !ok {
      return;
    }
    var next := Wrap(addr + 2);
    ok, next := EmitOperandBytes(target, next, st.mode1, v1);
    if !ok {
      return;
    }
    ok, next := EmitOperandBytes(target, next, st.mode2, v2);
  }

  lemma PutSucceeds(buffer: Bytes, index: nat, bytes: seq<byte>)
    ensures Put(buffer, index, bytes).Some? == (index + |bytes| <= SIZE)
  {
  }

  datatype Verdict = Accepted | Refused(line: nat, error: AsmError)

  class SectionBuffers {
    const code: array<byte>
    const data: array<byte>

    ghost predicate Valid() {
      code.Length == SIZE && data.Length == SIZE && code != data
    }

    ghost function View(): Buffers
      requires Valid()
      reads code, data
    {
      Buffers(code[..], data[..])
    }

    /** The verdict and, when accepted, the buffers are as `r` says. */
    ghost predicate Is(r: EmitResult, v: Verdict)
      requires Valid()
      reads code, data
    {
      match r
      case EmitError(line, e) => v == Refused(line, e)
      case Emitted(b) => v == Accepted && View() == b
    }

    constructor ()
      ensures Valid() && fresh(code) && fresh(data) && View() == BlankBuffers()
    {
      code := new byte[SIZE](i => 0);
      data := new byte[SIZE](i => 0);
      new;
      assert code[..] == Zeroed() && data[..] == Zeroed();
    }

    method EmitInstruction(st: Statement, symtab: SymbolTable) returns (v: Verdict)
      requires Valid() && symtab.Valid() && st.InstrStmt?
      modifies code, data
      ensures Is(EmitStatement(st, symtab.Table(), old(View())), v)
    {
      hide OperandValue, PutInstruction;
      var v1, v2 := 0, 0;
      if |st.operands| >= 1 {
        var r := ResolveOperand(st.operands[0], st.mode1, symtab);
        if r.BadValue? {
          return Refused(r.line, r.error);
        }
        v1 := r.v;
      }
      if |st.operands| >= 2 {
        var r := ResolveOperand(st.operands[1], st.mode2, symtab);
        if r.BadValue? {
          return Refused(r.line, r.error);
        }
        v2 := r.v;
      }
      var target := if st.inData then data else code;
      var ok := EmitEncoded(target, st.address, st, v1, v2);
      v := if ok then Accepted else Refused(st.line, Overrun);
    }

    /** A directive's bytes at its address. */
    method EmitBytes(st: Statement, bytes: seq<byte>, ghost symbols: map<string, word>) returns (v: Verdict)
      requires Valid() && Sized(st) && !st.InstrStmt?
      requires Meaning(st, symbols) == Encoded(bytes)
      modifies code, data
      ensures Is(EmitStatement(st, symbols, old(View())), v)
    {
      hide Meaning, Overlay;
      var target := if st.inData then data else code;
      var ok := Store(target, st.address, bytes);
      v := if ok then Accepted else Refused(st.line, Overrun);
    }

    method EmitOne(st: Statement, symtab: SymbolTable) returns (v: Verdict)
      requires Valid() && symtab.Valid()
      modifies code, data
      ensures Is(EmitStatement(st, symtab.Table(), old(View())), v)
    {
      hide ResolveValue, FirstValue, SecondValue, PutInstruction, Put, LowByte, HighByte, Wrap;
      match st {
        case LabelStmt(_, _, _) => v := Accepted;
        case OrgStmt(_) => v := Accepted;
        case DataStmt(_) => v := Accepted;
        case StringStmt(_, _, _, bytes) => v := EmitBytes(st, bytes + [0], symtab.Table());
        case WordStmt(line, _, _, operand) =>
          var value := Resolve(operand.kind, symtab);
          if value.None? {
            return Refused(line, UndefinedLabel);
          }
          var v16 := Wrap(value.value);
          v := EmitBytes(st, [LowByte(v16), HighByte(v16)], symtab.Table());
        case ByteStmt(line, _, _, value) =>
          if value < 0 || value > 255 {
            return Refused(line, ByteOutOfRange);
          }
          v := EmitBytes(st, [value as byte], symtab.Table());
        case InstrStmt(_, _, _, _, _, _, _) => v := EmitInstruction(st, symtab);
      }
    }

    /** The loop of pass 2. */
    method EmitStatements(sts: seq<Statement>, symtab: SymbolTable) returns (v: Verdict)
      requires Valid() && symtab.Valid()
      modifies code, data
      ensures Is(EmitAll(sts, symtab.Table(), old(View())), v)
    {
      hide EmitStatement;
      ghost var symbols := symtab.Table();
      var i := 0;
      assert sts[0..] == sts;
      while i < |sts|
        invariant 0 <= i <= |sts|
        invariant EmitAll(sts[i..], symbols, View()) == EmitAll(sts, symbols, old(View()))
      {
        assert sts[i..][0] == sts[i] && sts[i..][1..] == sts[i + 1..];
        v := EmitOne(sts[i], symtab);
        if v.Refused? {
          return;
        }
        i := i + 1;
      }
      assert sts[i..] == [];
      v := Accepted;
    }
  }

  /** `write_u16_le`. */
  method WriteWord(p: array<byte>, at: nat, value: word)
    requires at + 1 < p.Length
    modifies p
    ensures p[..] == old(p[..])[at := LowByte(value)][at + 1 := HighByte(value)]
  {
    p[at] := LowByte(value);
    p[at + 1] := HighByte(value);
  }

  /** `memcpy` of a buffer's slice into the image. */
  method CopySlice(image: array<byte>, at: nat, source: array<byte>, from: nat, size: nat)
    requires image != source && at + size <= image.Length && from + size <= source.Length
    modifies image
    ensures image[..] == old(image[..at]) + source[from..from + size] + old(image[at + size..])
  {
    var k := 0;
    while k < size
      invariant 0 <= k <= size
      invariant image[..at] == old(image[..at])
      invariant image[at..at + k] == source[from..from + k]
      invariant image[at + k..] == old(image[at + k..])
    {
      image[at + k] := source[from + k];
      k := k + 1;
    }
    assert image[..] == image[..at] + image[at..at + size] + image[at + size..];
  }

  /** The header, field by field, into a fresh image. */
  method WriteHeader(image: array<byte>, h: Loader.Header)
    requires image.Length >= Loader.HEADER_SIZE
    modifies image
    ensures image[..Loader.HEADER_SIZE] == HeaderBytes(h)
  {
    hide LowByte, HighByte;
    image[0], image[1], image[2], image[3] := 0x42, 0x56, 0x4D, 0x31;
    image[4] := 1;
    image[5] := 0;
    WriteWord(image, 6, h.entryPoint);
    WriteWord(image, 8, h.codeSize);
    WriteWord(image, 10, h.codeAddr);
    WriteWord(image, 12, h.dataSize);
    WriteWord(image, 14, h.dataAddr);
  }

  /** The image of the sections in the buffers. */
  method SerializeImage(b: SectionBuffers, s: Sections) returns (r: Assembly)
    requires b.Valid() && s.buffers == b.View()
    ensures r == WriteImage(s)
  {
    hide HeaderBytes;
    if (s.codeSize > 0 && s.codeAddr + s.codeSize > SIZE) || (s.dataSize > 0 && s.dataAddr + s.dataSize > SIZE) {
      return Failed(0, Overrun);
    }
    var image := new byte[Loader.HEADER_SIZE + s.codeSize + s.dataSize](i => 0);
    var n := Loader.HEADER_SIZE;
    WriteHeader(image, HeaderOf(s));
    if s.codeSize > 0 {
      CopySlice(image, n, b.code, s.codeAddr, s.codeSize);
    }
    if s.dataSize > 0 {
      CopySlice(image, n + s.codeSize, b.data, s.dataAddr, s.dataSize);
    }
    assert image[..n] == HeaderBytes(HeaderOf(s));
    assert image[n..n + s.codeSize] == Slice(s.buffers.code, s.codeAddr, s.codeSize);
    assert image[n + s.codeSize..] == Slice(s.buffers.data, s.dataAddr, s.dataSize);
    assert image[..] == image[..n] + image[n..n + s.codeSize] + image[n + s.codeSize..];
    r := Image(image[..]);
  }

  /** Both passes over a token list, and the image. */
  method AssembleTokenList(tokens: seq<Token>) returns (r: Assembly)
    requires Terminated(tokens)
    requires forall i | 0 <= i < |tokens| - 1 :: tokens[i].kind != Eof
    ensures r == AssembleTokens(tokens)
  {
    hide Build, EmitAll, WriteImage, BlankBuffers;
    var ps := new Parser(tokens);
    ps.BuildStatements();
    if ps.hadError {
      return Failed(ps.errorLine, ps.error);
    }
    var buffers := new SectionBuffers();
    var v := buffers.EmitStatements(ps.statements, ps.symtab);
    if v.Refused? {
      return Failed(v.line, v.error);
    }
    var sec := ps.sec;
    var codeSize := Wrap(sec.codeCursor as int - sec.codeStart as int);
    var dataSize := if sec.dataStarted then Wrap(sec.dataCursor as int - sec.dataStart as int) else 0;
    r := SerializeImage(buffers, Sections(Buffers(buffers.code[..], buffers.data[..]), sec.codeStart, codeSize,
                                          sec.dataStart, dataSize));
  }

  /** The assembler, from source text to image. */
  method AssembleSource(source: string) returns (r: Assembly)
    ensures r == Assemble(source)
  {
    hide Lex, AssembleTokens;
    var lexed := LexSource(source);
    match lexed {
      case LexError(line, fault) => r := Failed(line, Lexical(fault));
      case Tokens(tokens) => r := AssembleTokenList(tokens);
    }
  }
}
