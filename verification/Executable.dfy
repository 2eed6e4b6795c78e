/** What an assembled program is once it has been loaded: every statement's bytes at its
    address, zero everywhere else, and every instruction statement decoding to itself
    (src/assembler/parser.c, emit_instruction; src/loader.c; src/instruction.c). */
module Executable {
  import opened Words
  import opened Memory
  import opened Isa
  import opened Lexer
  import opened Syntax
  import opened Layout
  import opened Emit
  import opened Passes
  import opened Assembler
  import opened RoundTrip
  import Closure
  import Loader

  // ---- the modes of a placed instruction ----

  /** The modes pass 1 recorded are those its operands call for. */
  predicate Typed(st: Statement) {
    st.InstrStmt? ==> InstructionModes(st.line, st.opcode, st.operands) == Modes(st.mode1, st.mode2)
  }

  predicate AllTyped(sts: seq<Statement>) {
    forall i | 0 <= i < |sts| :: Typed(sts[i])
  }

  lemma PlaceTyped(item: Item, p: Pass1)
    requires Place(item, p).Placed? && AllTyped(p.statements)
    ensures AllTyped(Place(item, p).state.statements)
  {
    hide InstructionModes, Grow;
  }

  lemma {:induction false} LayOutTyped(items: seq<Item>, p: Pass1)
    requires LayOut(items, p).Placed? && AllTyped(p.statements)
    ensures AllTyped(LayOut(items, p).state.statements)
    decreases |items|
  {
    hide Place, AllTyped;
    if items != [] {
      PlaceTyped(items[0], p);
      LayOutTyped(items[1..], Place(items[0], p).state);
    }
  }

  /** A mode chosen for an operand is legal there, and the value that passes the range check fits it. */
  lemma ResolvedFits(op: ParsedOperand, mask: ModeMask, symbols: map<string, word>)
    requires ResolveMode(op.kind, mask).Legal?
    requires OperandValue(op, ResolveMode(op.kind, mask).mode, symbols).Value?
    ensures var mode := ResolveMode(op.kind, mask).mode;
            && mask.Allows(mode)
            && ValueFits(Operand(mode, Wrap(OperandValue(op, mode, symbols).v)))
  {
    var v := OperandValue(op, ResolveMode(op.kind, mask).mode, symbols).v;
    if 0 <= v < SIZE {
      WrapSmall(v);
    }
    hide Wrap;
  }

  lemma NoOperandMask(op: Opcode)
    ensures OperandCount(op) < 1 ==> LegalModes(op).0 == MODES_NONE
    ensures OperandCount(op) < 2 ==> LegalModes(op).1 == MODES_NONE
  {
  }

  lemma AcceptedWellFormed(st: Statement, symbols: map<string, word>)
    requires st.InstrStmt? && Typed(st)
    requires FirstValue(st, symbols).Value? && SecondValue(st, symbols).Value?
    ensures WellFormed(Denotes(st, FirstValue(st, symbols).v, SecondValue(st, symbols).v))
  {
    hide LegalModes, ResolveMode, OperandValue, OperandCount;
    var masks := LegalModes(st.opcode);
    NoOperandMask(st.opcode);
    WrapSmall(0);
    if |st.operands| >= 1 {
      ResolvedFits(st.operands[0], masks.0, symbols);
    }
    if |st.operands| >= 2 {
      ResolvedFits(st.operands[1], masks.1, symbols);
    }
    hide Wrap, ValueFits;
  }

  /** The bytes emitted for an instruction that pass 1 and pass 2 accept decode, wherever they lie, to its
      opcode, its modes and its values modulo 65536, and the decoder advances by the size pass 1 assumed. */
  lemma EmittedDecodes(st: Statement, symbols: map<string, word>, m: Bytes, at: word)
    requires st.InstrStmt? && Typed(st) && Meaning(st, symbols).Encoded?
    requires Window(m, at, Size(st)) == Meaning(st, symbols).bytes
    ensures FirstValue(st, symbols).Value? && SecondValue(st, symbols).Value?
    ensures Decode(m, at)
         == Decoded(Denotes(st, FirstValue(st, symbols).v, SecondValue(st, symbols).v), Wrap(at + Size(st)))
  {
    hide FirstValue, SecondValue, Encode, Decode, WellFormed, Typed, Window;
    AcceptedWellFormed(st, symbols);
    EncodeThenDecode(m, at, Denotes(st, FirstValue(st, symbols).v, SecondValue(st, symbols).v));
  }

  // ---- where the code starts ----

  predicate InCode(st: Statement) {
    Sized(st) && !st.inData
  }

  /** The first statement of the code section is the `k`th, at address `a`. */
  predicate IsFirst(sts: seq<Statement>, k: nat, a: word) {
    && k < |sts| && InCode(sts[k]) && sts[k].address == a
    && forall j | 0 <= j < k :: !InCode(sts[j])
  }

  /** The code section starts at its first statement, once it has one. */
  predicate StartsFirst(sts: seq<Statement>, sec: Section) {
    if sec.codeStarted then exists k | 0 <= k < |sts| :: IsFirst(sts, k, sec.codeStart)
    else forall k | 0 <= k < |sts| :: !InCode(sts[k])
  }

  lemma FirstStays(sts: seq<Statement>, more: seq<Statement>, k: nat, a: word)
    requires IsFirst(sts, k, a) && |sts| <= |more| && more[..|sts|] == sts
    ensures IsFirst(more, k, a)
  {
    hide InCode;
    forall j | 0 <= j < |sts| ensures more[j] == sts[j] {
      assert more[..|sts|][j] == sts[j];
    }
  }

  lemma PlaceSection(item: Item, p: Pass1)
    requires Place(item, p).Placed?
    ensures var q := Place(item, p).state;
            && |q.statements| == |p.statements| + 1
            && var st := q.statements[|p.statements|];
            && (p.section.codeStarted ==> q.section.codeStarted && q.section.codeStart == p.section.codeStart)
            && (!p.section.codeStarted ==> q.section.codeStarted == InCode(st))
            && (!p.section.codeStarted && InCode(st) ==> st.address == q.section.codeStart)
  {
    hide InstructionModes, PlaceInstruction, Wrap;
    PlacedShape(item, p);
    if item.InstrItem? {
      InstructionPlaced(item.line, item.opcode, item.operands, p);
    }
  }

  lemma PlaceStartsFirst(item: Item, p: Pass1)
    requires Place(item, p).Placed? && StartsFirst(p.statements, p.section)
    ensures StartsFirst(Place(item, p).state.statements, Place(item, p).state.section)
  {
    hide Place, InCode, IsFirst;
    PlaceSection(item, p);
    PlacedShape(item, p);
    var q := Place(item, p).state;
    var n := |p.statements|;
    if p.section.codeStarted {
      var k :| 0 <= k < n && IsFirst(p.statements, k, p.section.codeStart);
      FirstStays(p.statements, q.statements, k, p.section.codeStart);
    } else {
      forall j | 0 <= j < n ensures !InCode(q.statements[j]) {
        assert q.statements[..n][j] == p.statements[j];
      }
      if InCode(q.statements[n]) {
        NewFirst(q.statements, n);
      }
    }
  }

  lemma NewFirst(sts: seq<Statement>, n: nat)
    requires n < |sts| && InCode(sts[n]) && forall j | 0 <= j < n :: !InCode(sts[j])
    ensures IsFirst(sts, n, sts[n].address)
  {
  }

  lemma {:induction false} LayOutStartsFirst(items: seq<Item>, p: Pass1)
    requires LayOut(items, p).Placed? && StartsFirst(p.statements, p.section)
    ensures StartsFirst(LayOut(items, p).state.statements, LayOut(items, p).state.section)
    decreases |items|
  {
    hide Place, StartsFirst;
    if items != [] {
      PlaceStartsFirst(items[0], p);
      LayOutStartsFirst(items[1..], Place(items[0], p).state);
    }
  }

  lemma NothingStarted()
    ensures StartsFirst(NOTHING_PLACED.statements, NOTHING_PLACED.section)
  {
  }

  // ---- the loaded program ----

  /** The regions the header names are the two sections from start to end. */
  lemma HeaderRegions(sec: Section, b: Buffers)
    requires SectionInv(sec) && sec.codeStarted
    ensures var h := HeaderOf(SectionsOf(sec, b));
            && Loader.ValidRegions(h)
            && h.codeAddr == sec.codeStart && h.CodeEnd() == Top(sec, false)
            && h.dataAddr == sec.dataStart
            && h.DataEnd() == if sec.dataStarted then Top(sec, true) else 0
  {
    DifferenceWraps(sec.codeStart, sec.codeCursor);
    if sec.dataStarted {
      DifferenceWraps(sec.dataStart, Top(sec, true));
    }
    hide Wrap;
  }

  predicate InSlice(sec: Section, d: bool, a: word) {
    Started(sec, d) && Start(sec, d) <= a < Top(sec, d)
  }

  /** A loaded byte is the byte of the buffer whose emitted slice has its address; outside both slices it is zero. */
  lemma LoadedFromBuffers(sec: Section, b: Buffers, a: word)
    requires SectionInv(sec) && sec.codeStarted && WriteImage(SectionsOf(sec, b)).Image?
    ensures var image := WriteImage(SectionsOf(sec, b)).bytes;
            && Loader.Acceptable(image)
            && (InSlice(sec, false, a) ==> Loader.LoadedMemory(image)[a] == b.code[a])
            && (InSlice(sec, true, a) ==> Loader.LoadedMemory(image)[a] == b.data[a])
            && (!InSlice(sec, false, a) && !InSlice(sec, true, a) ==> Loader.LoadedMemory(image)[a] == 0)
  {
    hide Loader.ReadHeader, Wrap, WriteImage, SectionInv, Loader.ValidHeader, Loader.ValidRegions, Loader.LoadedByte,
      SectionsOf, HeaderOf;
    var s := SectionsOf(sec, b);
    var image := WriteImage(s).bytes;
    HeaderRegions(sec, b);
    Closure.WrittenImage(s);
    SliceBounds(s);
    SectionFields(sec, b);
    LoadedSlice(s, image, a);
    assert Loader.LoadedMemory(image)[a] == Loader.LoadedByte(image, a);
  }

  lemma SliceBounds(s: Sections)
    requires WriteImage(s).Image?
    ensures SliceInside(s.codeAddr, s.codeSize) && SliceInside(s.dataAddr, s.dataSize)
  {
    hide SliceInside, HeaderBytes, Slice;
  }

  lemma SectionFields(sec: Section, b: Buffers)
    requires SectionInv(sec)
    ensures SectionsOf(sec, b).buffers == b
    ensures if sec.dataStarted then Top(sec, false) <= sec.dataStart else sec.dataStart == 0
  {
  }

  lemma LoadedSlice(s: Sections, image: seq<byte>, a: word)
    requires Loader.Acceptable(image) && Loader.ReadHeader(image) == HeaderOf(s)
    requires SliceInside(s.codeAddr, s.codeSize) && SliceInside(s.dataAddr, s.dataSize)
    requires Loader.CodeBytes(image) == Slice(s.buffers.code, s.codeAddr, s.codeSize)
    requires Loader.DataBytes(image) == Slice(s.buffers.data, s.dataAddr, s.dataSize)
    ensures var h := HeaderOf(s);
            Loader.LoadedByte(image, a) ==
              if h.codeAddr <= a < h.CodeEnd() then s.buffers.code[a]
              else if h.dataAddr <= a < h.DataEnd() then s.buffers.data[a]
              else 0
  {
    hide Loader.ReadHeader, Loader.ValidHeader, Loader.ValidRegions, Loader.CodeBytes, Loader.DataBytes;
  }

  /** The address lies in one of the statements. */
  predicate CoveredBy(sts: seq<Statement>, a: word) {
    exists i, d: bool | 0 <= i < |sts| :: Covers(sts[i], d, a)
  }

  lemma CoveredInSlice(st: Statement, sec: Section, d: bool, a: word)
    requires Inside(st, sec) && Covers(st, d, a)
    ensures InSlice(sec, d, a)
  {
  }

  lemma UncoveredIsZero(sts: seq<Statement>, b: Buffers, d: bool, a: word)
    requires Untouched(sts, b) && !CoveredBy(sts, a)
    ensures Target(b, d)[a] == 0
  {
    hide Covers, Target;
  }

  /** The source reads as a list of items that fits and is laid out as `p`. */
  predicate LaidOutAs(source: string, p: Pass1) {
    && Lex(source, 1).Tokens?
    && var parsed := Items(Lex(source, 1).tokens, LineStart);
    && parsed.Parsed? && Fits(parsed.items, NOTHING_PLACED)
    && LayOut(parsed.items, NOTHING_PLACED) == Placed(p)
  }

  /** Everything known of a fitting source that assembles: its sections, and what pass 2 left in the buffers. */
  lemma FittingProgram(source: string, p: Pass1) returns (b: Buffers)
    requires LaidOutAs(source, p) && Assemble(source).Image?
    ensures Assemble(source) == WriteImage(SectionsOf(p.section, b)) && p.section.codeStarted
    ensures SectionInv(p.section) && Placement(p.statements, p.section)
    ensures AllHold(p.statements, p.symbols, b) && Untouched(p.statements, b)
    ensures AllTyped(p.statements) && StartsFirst(p.statements, p.section)
  {
    hide StartsFirst, Lex, Items, LayOut, Fits, Assemble, AssembleItems, EmitAll, WriteImage, SectionInv,
      Placement, AllHold, Untouched, AllTyped, BlankBuffers, SectionsOf;
    var items := SourceIsItems(source);
    var q;
    q, b := Closure.AssembledSections(items);
    PassesAgree(items);
    NothingTyped();
    LayOutTyped(items, NOTHING_PLACED);
    NothingStarted();
    LayOutStartsFirst(items, NOTHING_PLACED);
  }

  lemma NothingTyped()
    ensures AllTyped(NOTHING_PLACED.statements)
  {
  }

  /** Loading what a fitting source assembles to puts each statement's bytes at the statement's address. */
  lemma StatementLoaded(source: string, p: Pass1, i: nat, d: bool, a: word)
    requires LaidOutAs(source, p) && Assemble(source).Image?
    requires i < |p.statements| && Covers(p.statements[i], d, a)
    ensures Loader.Acceptable(Assemble(source).bytes)
    ensures Meaning(p.statements[i], p.symbols).Encoded?
    ensures Loader.LoadedMemory(Assemble(source).bytes)[a]
         == Meaning(p.statements[i], p.symbols).bytes[a - p.statements[i].address]
  {
    hide LaidOutAs, Assemble, SectionInv, Untouched, AllTyped, SectionsOf, WriteImage, Meaning, Loader.LoadedMemory,
      Loader.Acceptable, InSlice, Inside;
    var b := FittingProgram(source, p);
    var st := p.statements[i];
    LoadedFromBuffers(p.section, b, a);
    assert Inside(st, p.section);
    CoveredInSlice(st, p.section, d, a);
    assert Holds(st, p.symbols, b);
  }

  /** Every other byte of the loaded memory is zero. */
  lemma RestIsZero(source: string, p: Pass1, a: word)
    requires LaidOutAs(source, p) && Assemble(source).Image? && !CoveredBy(p.statements, a)
    ensures Loader.Acceptable(Assemble(source).bytes)
    ensures Loader.LoadedMemory(Assemble(source).bytes)[a] == 0
  {
    hide LaidOutAs, Assemble, SectionInv, Untouched, AllTyped, SectionsOf, WriteImage, Loader.LoadedMemory,
      Loader.Acceptable, InSlice, CoveredBy, AllHold, Placement;
    var b := FittingProgram(source, p);
    LoadedFromBuffers(p.section, b, a);
    UncoveredIsZero(p.statements, b, false, a);
    UncoveredIsZero(p.statements, b, true, a);
  }

  /** A statement's bytes are the slice of the loaded memory at its address, and end inside memory. */
  lemma StatementSlice(source: string, p: Pass1, i: nat)
    requires LaidOutAs(source, p) && Assemble(source).Image? && i < |p.statements| && Sized(p.statements[i])
    ensures var st := p.statements[i];
            && Loader.Acceptable(Assemble(source).bytes) && Meaning(st, p.symbols).Encoded?
            && Size(st) >= 1 && st.address + Size(st) <= SIZE
            && Loader.LoadedMemory(Assemble(source).bytes)[st.address..st.address + Size(st)]
               == Meaning(st, p.symbols).bytes
  {
    hide LaidOutAs, Assemble, SectionInv, Untouched, SectionsOf, WriteImage, Meaning, Loader.LoadedMemory,
      Loader.Acceptable, AllTyped, Size, AllHold, Before, StartsFirst;
    var st := p.statements[i];
    var b := FittingProgram(source, p);
    assert Inside(st, p.section);
    SizedIsPositive(st);
    TopInMemory(p.section, st.inData);
    StatementLoaded(source, p, i, st.inData, st.address);
    var m, bytes := Loader.LoadedMemory(Assemble(source).bytes), Meaning(st, p.symbols).bytes;
    assert |bytes| == Size(st);
    assert m[st.address..st.address + Size(st)] == bytes by {
      forall k | 0 <= k < Size(st) ensures m[st.address + k] == bytes[k] {
        StatementLoaded(source, p, i, st.inData, st.address + k);
      }
    }
  }

  /** In the loaded machine, the processor decodes at each instruction statement's address exactly that
      statement: its opcode, the modes pass 1 chose, its resolved values modulo 65536, and the address
      where the next statement of the section may begin. */
  lemma LoadedInstructionDecodes(source: string, p: Pass1, i: nat)
    requires LaidOutAs(source, p) && Assemble(source).Image?
    requires i < |p.statements| && p.statements[i].InstrStmt?
    ensures var st := p.statements[i];
            && Loader.Acceptable(Assemble(source).bytes)
            && FirstValue(st, p.symbols).Value? && SecondValue(st, p.symbols).Value?
            && Decode(Loader.LoadedMemory(Assemble(source).bytes), st.address)
               == Decoded(Denotes(st, FirstValue(st, p.symbols).v, SecondValue(st, p.symbols).v),
                          Wrap(st.address + Size(st)))
  {
    hide LaidOutAs, Assemble, SectionInv, Untouched, SectionsOf, WriteImage, Meaning, Loader.LoadedMemory,
      Loader.Acceptable, Decode, FirstValue, SecondValue, Window, Typed, Size, AllHold, Before, Wrap, StartsFirst;
    var st := p.statements[i];
    var b := FittingProgram(source, p);
    assert Typed(st);
    InstructionIsSized(st);
    StatementSlice(source, p, i);
    var m := Loader.LoadedMemory(Assemble(source).bytes);
    WindowIsSlice(m, st.address, Size(st));
    EmittedDecodes(st, p.symbols, m, st.address);
  }

  /** What the data directives leave in the loaded memory: `.string` its bytes in order and then a NUL, `.word` the
      low 16 bits of its value, low byte first, and `.byte` its value. */
  lemma DataLoaded(source: string, p: Pass1, i: nat)
    requires LaidOutAs(source, p) && Assemble(source).Image? && i < |p.statements|
    ensures Loader.Acceptable(Assemble(source).bytes)
    ensures var m := Loader.LoadedMemory(Assemble(source).bytes);
            match p.statements[i]
            case StringStmt(_, _, a, bytes) =>
              a + |bytes| < SIZE && m[a..a + |bytes|] == bytes && m[a + |bytes|] == 0
            case WordStmt(_, _, a, operand) =>
              && a + 1 < SIZE && ResolveValue(operand.kind, p.symbols).Some?
              && m[a] as int + 0x100 * m[a + 1] as int == ResolveValue(operand.kind, p.symbols).value % 0x1_0000
            case ByteStmt(_, _, a, v) => m[a] == v
            case _ => true
  {
    hide LaidOutAs, Assemble, SectionInv, Untouched, SectionsOf, WriteImage, Loader.LoadedMemory, Loader.Acceptable,
      Encode, FirstValue, SecondValue, AllHold, Placement, AllTyped, StartsFirst, LowByte, HighByte, Wrap, Denotes;
    var st := p.statements[i];
    var b := FittingProgram(source, p);
    LoadedFromBuffers(p.section, b, 0);
    if Sized(st) {
      StatementSlice(source, p, i);
      var m, bytes := Loader.LoadedMemory(Assemble(source).bytes), Meaning(st, p.symbols).bytes;
      SliceIs(m, st.address, bytes);
      if st.WordStmt? {
        WordInBytes(ResolveValue(st.operand.kind, p.symbols).value);
      } else if st.StringStmt? {
        assert bytes[..|st.bytes|] == st.bytes && bytes[|st.bytes|] == 0;
      }
    }
  }

  lemma SliceIs(m: Bytes, a: nat, bytes: seq<byte>)
    requires a + |bytes| <= SIZE && m[a..a + |bytes|] == bytes
    ensures forall n | 0 <= n <= |bytes| :: m[a..a + n] == bytes[..n]
    ensures forall n | 0 <= n < |bytes| :: m[a + n] == bytes[n]
  {
    forall n | 0 <= n <= |bytes| ensures m[a..a + n] == bytes[..n] {
      assert m[a..a + n] == m[a..a + |bytes|][..n];
    }
    forall n | 0 <= n < |bytes| ensures m[a + n] == bytes[n] {
      assert m[a + n] == m[a..a + |bytes|][n];
    }
  }

  lemma WordInBytes(v: int)
    ensures LowByte(Wrap(v)) + 0x100 * HighByte(Wrap(v)) == v % 0x1_0000
  {
  }

  lemma InstructionIsSized(st: Statement)
    requires st.InstrStmt?
    ensures Sized(st) && Size(st) >= 2
  {
  }

  lemma TopInMemory(sec: Section, d: bool)
    ensures Top(sec, d) <= SIZE
  {
  }

  /** The loaded program counter is the address of the first statement of the code section. */
  lemma EntryIsFirstStatement(source: string, p: Pass1, stdin: seq<byte>) returns (k: nat)
    requires LaidOutAs(source, p) && Assemble(source).Image?
    ensures Loader.Acceptable(Assemble(source).bytes)
    ensures IsFirst(p.statements, k, Loader.Loaded(Assemble(source).bytes, stdin, []).cpu.pc)
  {
    hide LaidOutAs, Assemble, SectionInv, Untouched, SectionsOf, WriteImage, Loader.LoadedMemory, Placement, AllHold,
      AllTyped, Loader.Acceptable, Loader.ReadHeader, InSlice, InCode, HeaderOf;
    var b := FittingProgram(source, p);
    LoadedFromBuffers(p.section, b, 0);
    Closure.WrittenImage(SectionsOf(p.section, b));
    EntryIsStart(p.section, b);
    k :| 0 <= k < |p.statements| && IsFirst(p.statements, k, p.section.codeStart);
  }

  lemma EntryIsStart(sec: Section, b: Buffers)
    ensures HeaderOf(SectionsOf(sec, b)).entryPoint == sec.codeStart
  {
  }
}
