/** What a listing says: which bytes the sweep shows as instructions, and that the listing of
    an assembled program is that program (src/disassembler.c, the sweep of disassemble). */
module Listing {
  import opened Words
  import opened Memory
  import opened Isa
  import opened Text
  import opened Lexer
  import opened Syntax
  import opened Layout
  import opened Emit
  import opened Passes
  import opened Assembler
  import opened Disassembler
  import opened RoundTrip
  import opened Executable
  import opened Location
  import Closure
  import Loader

  // ---- what each line of a sweep is ----

  /** An instruction decodes at `a` and lies wholly before `end`. */
  predicate LiesBefore(m: Bytes, a: word, end: word) {
    Decode(m, a).Decoded? && a < Decode(m, a).next <= end
  }

  lemma StepShows(m: Bytes, a: word, end: word)
    requires a < end
    ensures SweepStep(m, a, end).0 ==
            if LiesBefore(m, a, end) then InstrLine(Decode(m, a).instr) else ByteLine(m[a])
  {
    hide Decode;
  }

  /** Every line of a sweep: at its address, which is where the bytes of the lines before it end, it is the
      instruction that decodes there if that instruction lies before the end, and otherwise the byte there. */
  lemma SweptLine(m: Bytes, start: word, end: word, k: nat)
    requires start <= end && k < |Sweep(m, start, end)|
    ensures var lines := Sweep(m, start, end);
            var a := start + |AllBytes(lines[..k])|;
            && a < end
            && lines[k] == (if LiesBefore(m, a, end) then InstrLine(Decode(m, a).instr) else ByteLine(m[a]))
  {
    hide Sweep, AllBytes, SweepStep, LiesBefore;
    SweepAddresses(m, start, end, k);
    StepShows(m, start + |AllBytes(Sweep(m, start, end)[..k])|, end);
  }

  // ---- code that is a sequence of instructions ----

  function EncodeAll(instrs: seq<Instruction>): seq<byte> {
    if instrs == [] then [] else Encode(instrs[0]) + EncodeAll(instrs[1..])
  }

  function InstrLines(instrs: seq<Instruction>): (ls: seq<Line>)
    ensures |ls| == |instrs| && forall k | 0 <= k < |instrs| :: ls[k] == InstrLine(instrs[k])
  {
    if instrs == [] then [] else [InstrLine(instrs[0])] + InstrLines(instrs[1..])
  }

  predicate AllWellFormed(instrs: seq<Instruction>) {
    forall k | 0 <= k < |instrs| :: WellFormed(instrs[k])
  }

  /** Where the encoding of an instruction lies, the sweep shows it and goes on after it. */
  lemma StepOverInstruction(m: Bytes, pc: word, end: word, i: Instruction)
    requires WellFormed(i) && pc + |Encode(i)| <= end && m[pc..pc + |Encode(i)|] == Encode(i)
    ensures SweepStep(m, pc, end) == (InstrLine(i), pc + |Encode(i)|)
  {
    hide Decode, WellFormed, Wrap, Window;
    WindowIsSlice(m, pc, |Encode(i)|);
    EncodeThenDecode(m, pc, i);
    WrapSmall(pc + |Encode(i)|);
  }

  lemma {:induction false} SweepInstructions(m: Bytes, pc: word, end: word, instrs: seq<Instruction>)
    requires pc <= end && m[pc..end] == EncodeAll(instrs) && AllWellFormed(instrs)
    ensures Sweep(m, pc, end) == InstrLines(instrs)
    decreases |instrs|
  {
    hide SweepStep, WellFormed;
    if instrs != [] {
      var e := Encode(instrs[0]);
      assert m[pc..end] == e + EncodeAll(instrs[1..]);
      assert m[pc..pc + |e|] == m[pc..end][..|e|];
      assert m[pc + |e|..end] == m[pc..end][|e|..];
      StepOverInstruction(m, pc, end, instrs[0]);
      SweepInstructions(m, pc + |e|, end, instrs[1..]);
    }
  }

  /** Code that is a sequence of legal instructions is listed as exactly those instructions. */
  lemma InstructionsAreListed(image: seq<byte>, instrs: seq<Instruction>)
    requires Loader.ValidHeader(image)
    requires Loader.ReadHeader(image).codeAddr + Loader.ReadHeader(image).codeSize <= 0xFFFF
    requires Loader.CodeBytes(image) == EncodeAll(instrs) && AllWellFormed(instrs)
    ensures CodeLines(image) == InstrLines(instrs)
  {
    hide Sweep, WrapCopy, Wrap, Zeroed, EncodeAll, InstrLines, AllWellFormed, Loader.ReadHeader;
    var h := Loader.ReadHeader(image);
    var code := Loader.CodeBytes(image);
    var end := h.codeAddr + h.codeSize;
    WrapSmall(end);
    WrapCopyIsOverlay(Zeroed(), h.codeAddr, code);
    var m := WrapCopy(Zeroed(), h.codeAddr, code);
    assert m[h.codeAddr..end] == code;
    SweepInstructions(m, h.codeAddr, end, instrs);
  }

  // ---- assembled programs ----

  /** From statement `k`, the code section holds instructions only, with no `.org` once it has started. */
  predicate StraightCode(sts: seq<Statement>, k: nat, started: bool)
    requires k <= |sts|
    decreases |sts| - k
  {
    k < |sts| && !sts[k].DataStmt? ==>
      && (sts[k].LabelStmt? || sts[k].InstrStmt? || (sts[k].OrgStmt? && !started))
      && StraightCode(sts, k + 1, started || sts[k].InstrStmt?)
  }

  /** The machine instruction a statement denotes, if both its values resolve. */
  function Denoted(st: Statement, symbols: map<string, word>): seq<Instruction> {
    if st.InstrStmt? && FirstValue(st, symbols).Value? && SecondValue(st, symbols).Value? then
      [Denotes(st, FirstValue(st, symbols).v, SecondValue(st, symbols).v)]
    else []
  }

  /** The instructions of the code section from statement `k` on, as written. */
  function Program(sts: seq<Statement>, symbols: map<string, word>, k: nat): seq<Instruction>
    requires k <= |sts|
    decreases |sts| - k
  {
    if k == |sts| || sts[k].DataStmt? then [] else Denoted(sts[k], symbols) + Program(sts, symbols, k + 1)
  }

  /** Once the data section has begun, the code section stays as it is. */
  lemma PlaceInData(item: Item, p: Pass1)
    requires Place(item, p).Placed? && p.section.inData && DataMarked(p.section)
    ensures var q := Place(item, p).state;
            && q.section.inData && q.section.codeCursor == p.section.codeCursor
            && q.section.codeStarted == p.section.codeStarted && q.section.codeStart == p.section.codeStart
  {
    hide InstructionModes, PlaceInstruction, Wrap;
    PlacedShape(item, p);
    if item.InstrItem? {
      InstructionPlaced(item.line, item.opcode, item.operands, p);
    }
  }

  lemma {:induction false} DataKeepsCode(items: seq<Item>, p: Pass1)
    requires LayOut(items, p).Placed? && p.section.inData && DataMarked(p.section)
    ensures var f := LayOut(items, p).state;
            && f.section.codeCursor == p.section.codeCursor
            && f.section.codeStarted == p.section.codeStarted && f.section.codeStart == p.section.codeStart
    decreases |items|
  {
    hide Place, SameKind, Sized, Cursor;
    if items != [] {
      PlaceInData(items[0], p);
      PlaceMoves(items[0], p);
      DataKeepsCode(items[1..], Place(items[0], p).state);
    }
  }

  lemma {:induction false} StartStays(items: seq<Item>, p: Pass1)
    requires LayOut(items, p).Placed? && p.section.codeStarted
    ensures var f := LayOut(items, p).state;
            f.section.codeStarted && f.section.codeStart == p.section.codeStart
    decreases |items|
  {
    hide Place, InCode;
    if items != [] {
      PlaceSection(items[0], p);
      StartStays(items[1..], Place(items[0], p).state);
    }
  }

  /** What placing one item does to the code section, before `.data`. */
  lemma PlaceInCode(item: Item, p: Pass1)
    requires Place(item, p).Placed? && !p.section.inData
    ensures var q := Place(item, p).state;
            && (item.DataItem? ==>
                  q.section.inData && q.section.dataSeen && q.section.codeCursor == p.section.codeCursor
                  && q.section.codeStarted == p.section.codeStarted)
            && (item.LabelItem? ==> q.section == p.section)
            && (item.OrgItem? ==> !q.section.inData && q.section.codeStarted == p.section.codeStarted)
            && (item.InstrItem? ==>
                  && |q.statements| == |p.statements| + 1
                  && var st := q.statements[|p.statements|];
                  && !q.section.inData && q.section.codeStarted
                  && q.section.codeStart
                     == (if p.section.codeStarted then p.section.codeStart else p.section.codeCursor)
                  && q.section.codeCursor == Wrap(p.section.codeCursor + Size(st))
                  && st.InstrStmt? && !st.inData && st.address == p.section.codeCursor)
  {
    hide InstructionModes, PlaceInstruction, Wrap;
    if item.InstrItem? {
      PlacedShape(item, p);
      InstructionPlaced(item.line, item.opcode, item.operands, p);
    }
  }

  /** The bytes of an instruction statement where it was placed. */
  lemma StatementBytes(st: Statement, symbols: map<string, word>, b: Buffers)
    requires st.InstrStmt? && !st.inData && Holds(st, symbols, b) && st.address + Size(st) <= 0xFFFF
    ensures |Denoted(st, symbols)| == 1
    ensures Encode(Denoted(st, symbols)[0]) == b.code[st.address..st.address + Size(st)]
  {
    hide FirstValue, SecondValue, Encode;
    var bytes := Meaning(st, symbols).bytes;
    forall i | 0 <= i < Size(st) ensures b.code[st.address + i] == bytes[i] {
      assert Covers(st, false, st.address + i);
    }
  }

  /** The code bytes, from the cursor or from the start of the section, are the encodings of the instructions
      still to come. */
  predicate CodeIs(f: Pass1, b: Buffers, from: nat, instrs: seq<Instruction>) {
    from <= f.section.codeCursor && b.code[from..f.section.codeCursor] == EncodeAll(instrs)
  }

  lemma {:induction false} StraightBytes(items: seq<Item>, p: Pass1, f: Pass1, b: Buffers)
    requires LayOut(items, p) == Placed(f) && !p.section.inData && DataMarked(p.section) && Fits(items, p)
    requires |f.statements| == |p.statements| + |items|
    requires StraightCode(f.statements, |p.statements|, p.section.codeStarted)
    requires AllHold(f.statements, f.symbols, b)
    ensures var instrs := Program(f.statements, f.symbols, |p.statements|);
            && (p.section.codeStarted ==> CodeIs(f, b, p.section.codeCursor, instrs))
            && (!p.section.codeStarted && f.section.codeStarted ==> CodeIs(f, b, f.section.codeStart, instrs))
    decreases |items|
  {
    hide Place, SameKind, Denoted, Holds, Wrap, DataMarked, EncodeAll, Size, CodeIs;
    if items == [] {
      EmptyCode(f, b, p.section.codeCursor);
    } else {
      var k := |p.statements|;
      PlaceMoves(items[0], p);
      PlaceInCode(items[0], p);
      var q := Place(items[0], p).state;
      LayOutExtends(items[1..], q);
      assert f.statements[k] == f.statements[..k + 1][k];
      KindOfStatement(items[0], f.statements[k]);
      if items[0].DataItem? {
        DataKeepsCode(items[1..], q);
        EmptyCode(f, b, p.section.codeCursor);
      } else {
        StraightBytes(items[1..], q, f, b);
        if items[0].InstrItem? {
          InstructionPlace(items, p, q);
          StartStays(items[1..], q);
          InstructionStep(f, b, k);
        } else {
          NothingDenoted(f.statements[k], f.symbols, Program(f.statements, f.symbols, k + 1));
        }
      }
    }
  }

  lemma EmptyCode(f: Pass1, b: Buffers, c: nat)
    requires f.section.codeCursor == c
    ensures CodeIs(f, b, c, [])
  {
  }

  lemma KindOfStatement(item: Item, st: Statement)
    requires SameKind(item, st)
    ensures item.DataItem? <==> st.DataStmt?
    ensures item.LabelItem? <==> st.LabelStmt?
    ensures item.OrgItem? <==> st.OrgStmt?
    ensures item.InstrItem? <==> st.InstrStmt?
  {
  }

  lemma NothingDenoted(st: Statement, symbols: map<string, word>, rest: seq<Instruction>)
    requires !st.InstrStmt?
    ensures Denoted(st, symbols) + rest == rest
  {
  }

  /** Where an instruction of the code section is placed, and where the next one goes. */
  lemma InstructionPlace(items: seq<Item>, p: Pass1, q: Pass1)
    requires items != [] && items[0].InstrItem? && Place(items[0], p) == Placed(q)
    requires !p.section.inData && Fits(items, p)
    ensures |q.statements| == |p.statements| + 1
    ensures var st := q.statements[|p.statements|];
            && st.InstrStmt? && !st.inData && st.address == p.section.codeCursor
            && st.address + Size(st) <= 0xFFFF && q.section.codeCursor == st.address + Size(st)
    ensures q.section.codeStarted
    ensures q.section.codeStart == if p.section.codeStarted then p.section.codeStart else p.section.codeCursor
  {
    hide Place, Wrap, Size, Fits;
    PlaceInCode(items[0], p);
    StepFits(items, p, q);
    WrapSmall(p.section.codeCursor + Size(q.statements[|p.statements|]));
  }

  /** One instruction in front of code that is already accounted for. */
  lemma InstructionStep(f: Pass1, b: Buffers, k: nat)
    requires k < |f.statements| && f.statements[k].InstrStmt? && !f.statements[k].inData
    requires AllHold(f.statements, f.symbols, b)
    requires var st := f.statements[k];
             && st.address + Size(st) <= 0xFFFF
             && CodeIs(f, b, st.address + Size(st), Program(f.statements, f.symbols, k + 1))
    ensures CodeIs(f, b, f.statements[k].address, Program(f.statements, f.symbols, k))
  {
    hide Denoted, Holds, Size, Encode, CodeIs, Program, AllHold;
    var st := f.statements[k];
    HoldsAt(f.statements, f.symbols, b, k);
    StatementBytes(st, f.symbols, b);
    ProgramStep(f.statements, f.symbols, k);
    JoinCode(f, b, st.address, Size(st), Denoted(st, f.symbols), Program(f.statements, f.symbols, k + 1));
  }

  lemma HoldsAt(sts: seq<Statement>, symbols: map<string, word>, b: Buffers, k: nat)
    requires AllHold(sts, symbols, b) && k < |sts|
    ensures Holds(sts[k], symbols, b)
  {
    hide Holds;
  }

  lemma ProgramStep(sts: seq<Statement>, symbols: map<string, word>, k: nat)
    requires k < |sts| && !sts[k].DataStmt?
    ensures Program(sts, symbols, k) == Denoted(sts[k], symbols) + Program(sts, symbols, k + 1)
  {
    hide Denoted;
  }

  lemma StepFits(items: seq<Item>, p: Pass1, q: Pass1)
    requires items != [] && Place(items[0], p) == Placed(q) && Fits(items, p) && !p.section.inData
    requires |q.statements| == |p.statements| + 1
    ensures p.section.codeCursor + Size(q.statements[|p.statements|]) <= 0xFFFF
  {
    hide Place, Size, OnlyLabels;
  }

  lemma JoinCode(f: Pass1, b: Buffers, a: nat, n: nat, one: seq<Instruction>, rest: seq<Instruction>)
    requires |one| == 1 && a + n <= 0xFFFF && b.code[a..a + n] == Encode(one[0]) && CodeIs(f, b, a + n, rest)
    ensures CodeIs(f, b, a, one + rest)
  {
    hide Encode;
    assert (one + rest)[1..] == rest;
    assert b.code[a..f.section.codeCursor] == b.code[a..a + n] + b.code[a + n..f.section.codeCursor];
  }

  lemma {:induction false} ProgramWellFormed(sts: seq<Statement>, symbols: map<string, word>, k: nat)
    requires k <= |sts| && AllTyped(sts)
    ensures AllWellFormed(Program(sts, symbols, k))
    decreases |sts| - k
  {
    hide WellFormed, Typed, FirstValue, SecondValue;
    if k < |sts| && !sts[k].DataStmt? {
      ProgramWellFormed(sts, symbols, k + 1);
      assert Typed(sts[k]);
      if |Denoted(sts[k], symbols)| == 1 {
        AcceptedWellFormed(sts[k], symbols);
      }
    }
  }

  /** The listing of an assembled program whose code section holds instructions only is that program, instruction
      by instruction and in order. */
  lemma ProgramIsListed(source: string, p: Pass1)
    requires LaidOutAs(source, p) && Assemble(source).Image? && StraightCode(p.statements, 0, false)
    ensures Loader.ValidHeader(Assemble(source).bytes)
    ensures CodeLines(Assemble(source).bytes) == InstrLines(Program(p.statements, p.symbols, 0))
  {
    hide Lex, Items, Assemble, SectionInv, AllHold, Untouched, Placement, AllTyped, StartsFirst, SectionsOf, WriteImage,
      CodeLines, Program, StraightCode, AllWellFormed, Loader.ReadHeader, LayOut, Fits, HeaderOf, Slice;
    var b := FittingProgram(source, p);
    StatementCount(ItemsOf(source));
    StartMarked();
    StraightBytes(ItemsOf(source), NOTHING_PLACED, p, b);
    ProgramWellFormed(p.statements, p.symbols, 0);
    HeaderRegions(p.section, b);
    Closure.WrittenImage(SectionsOf(p.section, b));
    SliceBounds(SectionsOf(p.section, b));
    CodeSlice(p.section, b);
    InstructionsAreListed(Assemble(source).bytes, Program(p.statements, p.symbols, 0));
  }

  /** The code slice runs from the start of the code section to its cursor. */
  lemma CodeSlice(sec: Section, b: Buffers)
    requires SectionInv(sec) && sec.codeStarted
    ensures var s := SectionsOf(sec, b);
            && SliceInside(s.codeAddr, s.codeSize) && sec.codeStart <= sec.codeCursor
            && Slice(s.buffers.code, s.codeAddr, s.codeSize) == b.code[sec.codeStart..sec.codeCursor]
  {
    hide Wrap;
    DifferenceWraps(sec.codeStart, sec.codeCursor);
  }

  // ---- the listing of examples/hello.asm ----

  function Register(k: word): Operand {
    Operand(Reg, k)
  }

  function Absence(): Operand {
    Operand(Absent, 0)
  }

  lemma HelloMoves()
    ensures FormatInstruction(Instruction(MOV, Register(1), Operand(Imm16, 32))) == "MOV R1, 32"
    ensures FormatInstruction(Instruction(LOAD, Register(0), Operand(RegIndirect, 1))) == "LOAD R0, [R1]"
  {
    TwoDigits(3, 2);
    assert Decimal(1) == "1" && Decimal(0) == "0";
    hide Decimal;
  }

  lemma HelloArithmetic()
    ensures FormatInstruction(Instruction(AND, Register(0), Operand(Imm16, 255))) == "AND R0, 255"
    ensures FormatInstruction(Instruction(ADD, Register(1), Operand(Imm16, 1))) == "ADD R1, 1"
  {
    TwoDigits(2, 5);
    assert Decimal(255) == Decimal(25) + [DigitChar(5)];
    assert Decimal(1) == "1" && Decimal(0) == "0";
    hide Decimal;
  }

  lemma HelloAddresses()
    ensures Address(0x1E) == "0x001E" && Address(0x05) == "0x0005"
  {
    hide Hex;
    FourDigits(0, 0, 1, 0xE);
    FourDigits(0, 0, 0, 5);
  }

  lemma HelloBranch()
    ensures FormatInstruction(Instruction(JZ, Operand(MemDirect, 0x1E), Absence())) == "JZ 0x001E"
  {
    hide Address;
    HelloAddresses();
  }

  lemma HelloJump()
    ensures FormatInstruction(Instruction(JMP, Operand(MemDirect, 0x05), Absence())) == "JMP 0x0005"
  {
    hide Address;
    HelloAddresses();
  }

  lemma HelloSystem()
    ensures FormatInstruction(Instruction(SYS, Operand(Imm8, 2), Absence())) == "SYS PRINT_CHAR"
    ensures FormatInstruction(Instruction(HALT, Absence(), Absence())) == "HALT"
  {
  }

  lemma HelloCode()
    ensures Region(32, 0) == "32 bytes at 0x0000"
  {
    hide Hex, Decimal, DigitChar;
    FourDigits(0, 0, 0, 0);
    TwoDigits(3, 2);
    HelloDigits();
  }

  lemma HelloData()
    ensures Region(8, 32) == "8 bytes at 0x0020"
  {
    hide Hex, DigitChar;
    FourDigits(0, 0, 2, 0);
    HelloDigits();
  }

  lemma HelloDigits()
    ensures DigitChar(0) == '0' && DigitChar(2) == '2' && DigitChar(3) == '3' && DigitChar(8) == '8'
  {
  }

  lemma HelloHeading()
    ensures Body(CommentLine(Regions(Loader.Header(0, 32, 0, 8, 32))))
         == "; code: " + "32 bytes at 0x0000" + (", data: " + "8 bytes at 0x0020")
  {
    hide Region;
    HelloCode();
    HelloData();
    assert ";" + " code: " == "; code: ";
    assert ";" + (" code: " + Region(32, 0) + (", data: " + Region(8, 32)))
        == ";" + " code: " + Region(32, 0) + (", data: " + Region(8, 32));
  }

  lemma HelloBytes()
    ensures Body(DataLine) == ".data" && Body(ByteLine(0x48)) == "    .byte 0x48"
    ensures Body(OrgLine(0x20)) == ".org 0x0020"
  {
    FourDigits(0, 0, 2, 0);
    HexStep(4, 8, 1);
    HexStep(0, 4, 0);
    NoDigits();
    hide Hex;
  }

  lemma TwoDigits(a: nat, b: nat)
    requires 1 <= a < 10 && b < 10
    ensures Decimal(10 * a + b) == [DigitChar(a), DigitChar(b)]
  {
    assert (10 * a + b) / 10 == a && (10 * a + b) % 10 == b;
    assert Decimal(a) == [DigitChar(a)];
  }

  lemma FourDigits(a: nat, b: nat, c: nat, d: nat)
    requires a < 16 && b < 16 && c < 16 && d < 16
    ensures Hex(((a * 16 + b) * 16 + c) * 16 + d, 4) == [DigitChar(a), DigitChar(b), DigitChar(c), DigitChar(d)]
  {
    hide Hex, DigitChar;
    HexPair(a * 16 + b, c, d, 2);
    HexPair(0, a, b, 0);
    NoDigits();
  }

  lemma HexPair(n: nat, c: nat, d: nat, w: nat)
    requires c < 16 && d < 16
    ensures Hex((n * 16 + c) * 16 + d, w + 2) == Hex(n, w) + [DigitChar(c), DigitChar(d)]
  {
    hide Hex, DigitChar;
    HexStep(n * 16 + c, d, w + 1);
    HexStep(n, c, w);
  }

  lemma NoDigits()
    ensures Hex(0, 0) == ""
  {
  }

  lemma HexStep(n: nat, d: nat, w: nat)
    requires d < 16
    ensures Hex(n * 16 + d, w + 1) == Hex(n, w) + [DigitChar(d)]
  {
    hide DigitChar;
    assert (n * 16 + d) / 16 == n && (n * 16 + d) % 16 == d;
  }
}
