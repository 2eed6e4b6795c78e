/** The disassembler: a linear sweep of the code that falls back to `.byte`, and the
    text it prints (src/disassembler.c). */
module Disassembler {
  import opened Options
  import opened Words
  import opened Memory
  import opened Isa
  import opened Text
  import Loader

  // ---- printing one instruction ----

  function MnemonicFor(op: Opcode): string {
    match op
    case NOP => "NOP" case MOV => "MOV" case ADD => "ADD" case SUB => "SUB"
    case MUL => "MUL" case DIV => "DIV" case MOD => "MOD" case AND => "AND"
    case OR => "OR" case XOR => "XOR" case NOT => "NOT" case SHL => "SHL"
    case SHR => "SHR" case LOAD => "LOAD" case STORE => "STORE" case PUSH => "PUSH"
    case POP => "POP" case CMP => "CMP" case JMP => "JMP" case JZ => "JZ"
    case JNZ => "JNZ" case JG => "JG" case JGE => "JGE" case JL => "JL"
    case JLE => "JLE" case JB => "JB" case JAE => "JAE" case JA => "JA"
    case JBE => "JBE" case CALL => "CALL" case RET => "RET" case SYS => "SYS"
    case HALT => "HALT"
  }

  function SyscallNameFor(code: word): Option<string> {
    match code
    case 1 => Some("PRINT_INT")
    case 2 => Some("PRINT_CHAR")
    case 3 => Some("READ_INT")
    case 4 => Some("EXIT")
    case _ => None
  }

  /** `0x%04X`. */
  function Address(a: word): string {
    "0x" + Hex(a, 4)
  }

  /** An operand in source syntax; an address is bracketed only where a register could stand in its place. */
  function FormatOperand(op: Opcode, o: Operand, mask: ModeMask): string {
    match o.mode
    case Absent => ""
    case Reg => "R" + Decimal(o.value)
    case RegIndirect => "[" + ("R" + Decimal(o.value)) + "]"
    case Imm16 => Decimal(o.value)
    case Imm8 =>
      if op == SYS && SyscallNameFor(o.value).Some? then SyscallNameFor(o.value).value else Decimal(o.value)
    case MemDirect => if mask.regIndirect then "[" + Address(o.value) + "]" else Address(o.value)
  }

  function FormatInstruction(i: Instruction): string {
    var masks := LegalModes(i.opcode);
    MnemonicFor(i.opcode)
    + if i.op1.mode == Absent then ""
      else
        " " + FormatOperand(i.opcode, i.op1, masks.0)
        + if i.op2.mode == Absent then "" else ", " + FormatOperand(i.opcode, i.op2, masks.1)
  }

  // ---- the lines of a disassembly ----

  datatype Line =
    | CommentLine(text: string)
    | BlankLine
    | OrgLine(addr: word)
    | DataLine
    | ByteLine(b: byte)
    | InstrLine(i: Instruction)

  /** A line without its newline. */
  function Body(l: Line): string {
    match l
    case CommentLine(text) => ";" + text
    case BlankLine => ""
    case OrgLine(a) => ".org " + Address(a)
    case DataLine => ".data"
    case ByteLine(b) => "    .byte 0x" + Hex(b, 2)
    case InstrLine(i) => "    " + FormatInstruction(i)
  }

  function PrintLine(l: Line): string {
    Body(l) + "\n"
  }

  function PrintAll(ls: seq<Line>): string {
    if ls == [] then "" else PrintLine(ls[0]) + PrintAll(ls[1..])
  }

  /** The bytes a line stands for. */
  function LineBytes(l: Line): seq<byte> {
    match l
    case ByteLine(b) => [b]
    case InstrLine(i) => Encode(i)
    case _ => []
  }

  function AllBytes(ls: seq<Line>): seq<byte> {
    if ls == [] then [] else LineBytes(ls[0]) + AllBytes(ls[1..])
  }

  /** What decoding at `pc` contributes to a sweep that must stop at `end`: an instruction that
      lies wholly before `end`, or else one raw byte. */
  function SweepStep(m: Bytes, pc: word, end: word): (Line, word) {
    match Decode(m, pc)
    case Decoded(i, next) => if next > end || next <= pc then (ByteLine(m[pc]), Wrap(pc + 1)) else (InstrLine(i), next)
    case Undecodable(_) => (ByteLine(m[pc]), Wrap(pc + 1))
  }

  lemma SweepAdvances(m: Bytes, pc: word, end: word)
    requires pc < end
    ensures pc < SweepStep(m, pc, end).1 <= end
  {
    hide Decode;
  }

  /** The lines of the code, from `pc` to `end`. */
  function Sweep(m: Bytes, pc: word, end: word): seq<Line>
    decreases end as int - pc as int
  {
    if pc >= end then []
    else
      SweepAdvances(m, pc, end);
      var (line, next) := SweepStep(m, pc, end);
      [line] + Sweep(m, next, end)
  }

  // ---- the disassembly of an image ----

  /** Bytes copied to consecutive addresses that wrap at 16 bits. */
  function WrapCopy(m: Bytes, addr: word, bytes: seq<byte>): Bytes
    decreases |bytes|
  {
    if bytes == [] then m
    else
      var n := |bytes| - 1;
      WrapCopy(m, addr, bytes[..n])[Wrap(addr + n) := bytes[n]]
  }

  function Region(size: word, a: word): string {
    Decimal(size) + (" bytes at " + Address(a))
  }

  function Regions(h: Loader.Header): string {
    " code: " + Region(h.codeSize, h.codeAddr) + DataRegion(h)
  }

  function DataRegion(h: Loader.Header): string {
    if h.dataSize > 0 then ", data: " + Region(h.dataSize, h.dataAddr) else ""
  }

  function Heading(h: Loader.Header): seq<Line> {
    [CommentLine(" disassembled from a .bvm image"), CommentLine(Regions(h)), BlankLine]
  }

  function OrgUnless(skip: bool, a: word): seq<Line> {
    if skip then [] else [OrgLine(a)]
  }

  function ByteLines(bytes: seq<byte>): seq<Line> {
    if bytes == [] then [] else [ByteLine(bytes[0])] + ByteLines(bytes[1..])
  }

  function CodeLines(image: seq<byte>): seq<Line>
    requires Loader.ValidHeader(image)
  {
    var h := Loader.ReadHeader(image);
    Sweep(WrapCopy(Zeroed(), h.codeAddr, Loader.CodeBytes(image)), h.codeAddr, Wrap(h.codeAddr + h.codeSize))
  }

  function DataLines(image: seq<byte>): seq<Line>
    requires Loader.ValidHeader(image)
  {
    var h := Loader.ReadHeader(image);
    if h.dataSize == 0 then []
    else
      [BlankLine, DataLine] + OrgUnless(h.dataAddr == Wrap(h.codeAddr + h.codeSize), h.dataAddr)
      + ByteLines(Loader.DataBytes(image))
  }

  function ImageLines(image: seq<byte>): seq<Line>
    requires Loader.ValidHeader(image)
  {
    var h := Loader.ReadHeader(image);
    Heading(h) + OrgUnless(h.codeAddr == 0, h.codeAddr) + CodeLines(image) + DataLines(image)
  }

  datatype DisError = NotBvm | TooShort | EntryElsewhere

  datatype Disassembly = Source(text: string) | Refused(error: DisError)

  function Disassemble(image: seq<byte>): Disassembly {
    if |image| < Loader.HEADER_SIZE || image[..4] != Loader.MAGIC || image[4] != 1 || image[5] != 0 then Refused(NotBvm)
    else
      var h := Loader.ReadHeader(image);
      if |image| < Loader.HEADER_SIZE + h.codeSize + h.dataSize then Refused(TooShort)
      else if h.entryPoint != h.codeAddr then Refused(EntryElsewhere)
      else Source(PrintAll(ImageLines(image)))
  }

  // ---- the sweep partitions the code ----

  lemma SweepStepBytes(m: Bytes, pc: word, end: word)
    requires pc < end
    ensures pc < SweepStep(m, pc, end).1 <= end
    ensures LineBytes(SweepStep(m, pc, end).0) == m[pc..SweepStep(m, pc, end).1]
    ensures SweepStep(m, pc, end).0.InstrLine? ==> WellFormed(SweepStep(m, pc, end).0.i)
  {
    hide Decode, Encode, WellFormed, Window;
    SweepAdvances(m, pc, end);
    var (line, next) := SweepStep(m, pc, end);
    if line.InstrLine? {
      DecodeThenEncode(m, pc);
      NextBeyond(pc, |Encode(line.i)|, next);
      WindowIsSlice(m, pc, |Encode(line.i)|);
    } else {
      ByteNext(m, pc, end);
    }
  }

  lemma ByteNext(m: Bytes, pc: word, end: word)
    requires pc < end
    ensures Wrap(pc + 1) == pc + 1
  {
  }

  /** A next address above `pc` was reached without wrapping. */
  lemma NextBeyond(pc: word, n: nat, next: word)
    requires next == Wrap(pc + n) && next > pc && n < SIZE
    ensures next == pc + n
  {
  }

  /** A raw byte, or an instruction that decoded. */
  predicate IsCodeLine(l: Line) {
    l.ByteLine? || (l.InstrLine? && WellFormed(l.i))
  }

  predicate AreCodeLines(ls: seq<Line>) {
    forall i | 0 <= i < |ls| :: IsCodeLine(ls[i])
  }

  /** The sweep covers every byte from `pc` to `end` exactly once, in order, and none beyond. */
  lemma {:induction false} SweepPartitions(m: Bytes, pc: word, end: word)
    ensures AllBytes(Sweep(m, pc, end)) == if pc < end then m[pc..end] else []
    ensures AreCodeLines(Sweep(m, pc, end))
    decreases end as int - pc as int
  {
    hide SweepStep, LineBytes, WellFormed;
    if pc < end {
      SweepStepBytes(m, pc, end);
      StepIsCode(m, pc, end);
      var (line, next) := SweepStep(m, pc, end);
      SweepPartitions(m, next, end);
      assert m[pc..end] == m[pc..next] + m[next..end];
    }
  }

  lemma StepIsCode(m: Bytes, pc: word, end: word)
    requires pc < end
    ensures IsCodeLine(SweepStep(m, pc, end).0)
  {
    hide Decode, LineBytes;
    SweepStepBytes(m, pc, end);
  }

  /** Where each line of a sweep starts: the start of the sweep plus the bytes of the lines before it. */
  lemma {:induction false} SweepAddresses(m: Bytes, pc: word, end: word, k: nat)
    requires pc <= end && k <= |Sweep(m, pc, end)|
    ensures pc + |AllBytes(Sweep(m, pc, end)[..k])| <= end
    ensures k < |Sweep(m, pc, end)| ==>
              var a := pc + |AllBytes(Sweep(m, pc, end)[..k])|;
              a < end && Sweep(m, pc, end)[k] == SweepStep(m, a, end).0
    decreases end as int - pc as int
  {
    hide SweepStep, LineBytes;
    if pc < end {
      SweepStepBytes(m, pc, end);
      var (line, next) := SweepStep(m, pc, end);
      if k > 0 {
        SweepAddresses(m, next, end, k - 1);
        assert Sweep(m, pc, end)[..k] == [line] + Sweep(m, next, end)[..k - 1];
        assert Sweep(m, pc, end)[..k][1..] == Sweep(m, next, end)[..k - 1];
      } else {
        assert Sweep(m, pc, end)[..0] == [];
      }
    } else {
      assert Sweep(m, pc, end)[..k] == [];
    }
  }

  lemma {:induction false} WrapCopyIsOverlay(m: Bytes, addr: word, bytes: seq<byte>)
    requires addr + |bytes| <= SIZE
    ensures WrapCopy(m, addr, bytes) == Overlay(m, addr, bytes)
    decreases |bytes|
  {
    if bytes == [] {
      assert Overlay(m, addr, bytes) == m;
    } else {
      var n := |bytes| - 1;
      WrapCopyIsOverlay(m, addr, bytes[..n]);
      assert Wrap(addr + n) == addr + n;
      hide WrapCopy, Wrap;
      OverlayOne(m, addr, bytes);
    }
  }

  lemma OverlayOne(m: Bytes, addr: word, bytes: seq<byte>)
    requires bytes != [] && addr + |bytes| <= SIZE
    ensures var n := |bytes| - 1;
            Overlay(m, addr, bytes[..n])[addr + n := bytes[n]] == Overlay(m, addr, bytes)
  {
  }

  /** When the code ends below 0x10000, its lines stand for exactly the code bytes of the image. */
  lemma CodeLinesPartition(image: seq<byte>)
    requires Loader.ValidHeader(image) && Loader.ReadHeader(image).CodeEnd() <= 0xFFFF
    ensures AllBytes(CodeLines(image)) == Loader.CodeBytes(image) && AreCodeLines(CodeLines(image))
  {
    hide Sweep, AllBytes, WrapCopy, Wrap, Zeroed, Loader.ReadHeader;
    var h := Loader.ReadHeader(image);
    var code := Loader.CodeBytes(image);
    var m := WrapCopy(Zeroed(), h.codeAddr, code);
    var end := h.codeAddr + h.codeSize;
    WrapSmall(end);
    SweepPartitions(m, h.codeAddr, end);
    WrapCopyIsOverlay(Zeroed(), h.codeAddr, code);
    assert m[h.codeAddr..end] == code;
  }

  /** When the code ends at or past 0x10000, the sweep's 16-bit end has wrapped and nothing is swept. */
  lemma CodeLinesLost(image: seq<byte>)
    requires Loader.ValidHeader(image) && Loader.ReadHeader(image).CodeEnd() > 0xFFFF
    ensures CodeLines(image) == []
  {
    hide WrapCopy, SweepStep, Wrap, Zeroed, Loader.ReadHeader, Loader.CodeBytes;
    var h := Loader.ReadHeader(image);
    WrapsBelow(h.codeAddr, h.codeSize);
  }

  lemma WrapsBelow(start: word, size: word)
    requires start + size > 0xFFFF
    ensures Wrap(start + size) < start
  {
    assert start + size == SIZE + (start + size - SIZE);
  }
}
