/** Pass 1: operand modes, sizes and addresses, decided from syntax alone, with the
    label table (src/assembler/parser.c, resolve_operand_mode to parse_line;
    src/assembler/symtab.c). */
module Layout {
  import opened Options
  import opened Words
  import opened Isa
  import opened Lexer
  import opened Syntax

  // ---- the two sections ----

  datatype Section = Section(
    inData: bool,
    dataSeen: bool,
    codeCursor: word,
    dataCursor: word,
    codeStarted: bool,
    dataStarted: bool,
    codeStart: word,
    dataStart: word)

  const AT_ZERO := Section(false, false, 0, 0, false, false, 0, 0)

  /** The active section's cursor. */
  function Cursor(sec: Section): word {
    if sec.inData then sec.dataCursor else sec.codeCursor
  }

  function WithCursor(sec: Section, c: word): Section {
    if sec.inData then sec.(dataCursor := c) else sec.(codeCursor := c)
  }

  /** The first sized statement of a section fixes where the section starts. */
  function NoteStart(sec: Section): Section {
    if sec.inData then
      if sec.dataStarted then sec else sec.(dataStarted := true, dataStart := sec.dataCursor)
    else
      if sec.codeStarted then sec else sec.(codeStarted := true, codeStart := sec.codeCursor)
  }

  /** The section after a statement of `size` bytes; the cursor is 16 bits wide. */
  function Grow(sec: Section, size: nat): Section {
    WithCursor(NoteStart(sec), Wrap(Cursor(sec) + size))
  }

  // ---- statements with addresses ----

  datatype Statement =
    | LabelStmt(line: nat, name: string, address: word)
    | OrgStmt(line: nat)
    | DataStmt(line: nat)
    | StringStmt(line: nat, inData: bool, address: word, bytes: seq<byte>)
    | WordStmt(line: nat, inData: bool, address: word, operand: ParsedOperand)
    | ByteStmt(line: nat, inData: bool, address: word, value: int)
    | InstrStmt(line: nat, inData: bool, address: word, opcode: Opcode, operands: seq<ParsedOperand>,
                mode1: Mode, mode2: Mode)

  predicate Sized(st: Statement) {
    st.StringStmt? || st.WordStmt? || st.ByteStmt? || st.InstrStmt?
  }

  /** `encoded_size`. */
  function Size(st: Statement): nat {
    match st
    case StringStmt(_, _, _, bytes) => |bytes| + 1
    case WordStmt(_, _, _, _) => 2
    case ByteStmt(_, _, _, _) => 1
    case InstrStmt(_, _, _, _, _, m1, m2) => 2 + ModeSize(m1) + ModeSize(m2)
    case _ => 0
  }

  // ---- operand modes ----

  datatype ModeResult = Legal(mode: Mode) | Illegal(error: AsmError)

  function IndexedMode(index: nat, mode: Mode, mask: ModeMask, refusal: AsmError): ModeResult {
    if !mask.Allows(mode) then Illegal(refusal)
    else if index > 7 then Illegal(RegisterOutOfRange)
    else Legal(mode)
  }

  /** A bare number or label takes its mode from what is legal at its position. */
  function BareMode(mask: ModeMask): ModeResult {
    if mask == MODES_MEM then Illegal(NeedsBrackets)
    else if mask.imm16 then Legal(Imm16)
    else if mask.memDirect then Legal(MemDirect)
    else if mask.imm8 then Legal(Imm8)
    else Illegal(NoImmediateLegal)
  }

  function ResolveMode(kind: OperandKind, mask: ModeMask): ModeResult {
    match kind
    case RegisterOp(i) => IndexedMode(i, Reg, mask, RegisterNotLegal)
    case IndirectOp(i) => IndexedMode(i, RegIndirect, mask, IndirectNotLegal)
    case MemNumberOp(_) | MemLabelOp(_) => if mask.memDirect then Legal(MemDirect) else Illegal(AddressNotLegal)
    case NumberOp(_) | LabelOp(_) => BareMode(mask)
  }

  /** The modes an operand without a register can have. */
  function ValueModes(mask: ModeMask): set<Mode> {
    (if mask.imm16 then {Imm16} else {}) + (if mask.imm8 then {Imm8} else {})
    + (if mask.memDirect then {MemDirect} else {}) + (if mask.regIndirect then {RegIndirect} else {})
  }

  /** What each operand syntax is accepted as: a register or a register in brackets where that mode is legal and the
      index is 0 to 7; a bracketed number or label where an address is legal; and a bare number or label exactly
      where one mode without a register is legal, as that mode. */
  lemma SyntaxDecides(kind: OperandKind, op: Opcode, first: bool)
    ensures var mask := if first then LegalModes(op).0 else LegalModes(op).1;
            var r := ResolveMode(kind, mask);
            && (kind.RegisterOp? ==> (r == Legal(Reg) <==> mask.reg && kind.index <= 7) && (r.Legal? ==> r.mode == Reg))
            && (kind.IndirectOp? ==>
                  (r == Legal(RegIndirect) <==> mask.regIndirect && kind.index <= 7)
                  && (r.Legal? ==> r.mode == RegIndirect))
            && (kind.MemNumberOp? || kind.MemLabelOp? ==>
                  (r == Legal(MemDirect) <==> mask.memDirect) && (r.Legal? ==> r.mode == MemDirect))
            && (kind.NumberOp? || kind.LabelOp? ==>
                  forall m: Mode :: r == Legal(m) <==> ValueModes(mask) == {m})
  {
    MaskRows(op, first);
    hide LegalModes;
    var mask := if first then LegalModes(op).0 else LegalModes(op).1;
    if kind.NumberOp? || kind.LabelOp? {
      BareDecides(mask);
    }
  }

  lemma MaskRows(op: Opcode, first: bool)
    ensures (if first then LegalModes(op).0 else LegalModes(op).1)
            in {MODES_NONE, MODES_REG, MODES_REG_IMM16, MODES_MEM, MODES_MEM_DIRECT, MODES_IMM8}
  {
  }

  lemma BareDecides(mask: ModeMask)
    requires mask in {MODES_NONE, MODES_REG, MODES_REG_IMM16, MODES_MEM, MODES_MEM_DIRECT, MODES_IMM8}
    ensures forall m: Mode :: BareMode(mask) == Legal(m) <==> ValueModes(mask) == {m}
  {
    if mask == MODES_MEM {
      assert MemDirect in ValueModes(mask) && RegIndirect in ValueModes(mask);
    } else if mask == MODES_REG_IMM16 {
      assert ValueModes(mask) == {Imm16} && Imm16 in ValueModes(mask);
    } else if mask == MODES_MEM_DIRECT {
      assert ValueModes(mask) == {MemDirect} && MemDirect in ValueModes(mask);
    } else if mask == MODES_IMM8 {
      assert ValueModes(mask) == {Imm8} && Imm8 in ValueModes(mask);
    } else {
      assert ValueModes(mask) == {};
    }
  }

  /** How many operands an opcode takes. */
  function OperandCount(op: Opcode): nat {
    var modes := LegalModes(op);
    if modes.0 == MODES_NONE then 0 else if modes.1 == MODES_NONE then 1 else 2
  }

  // ---- placing items ----

  datatype Pass1 = Pass1(statements: seq<Statement>, symbols: map<string, word>, section: Section)

  const NOTHING_PLACED := Pass1([], map[], AT_ZERO)

  datatype PlaceResult = Placed(state: Pass1) | Misplaced(line: nat, error: AsmError)

  /** Appends a sized statement at the cursor. */
  function Append(p: Pass1, st: Statement): Pass1 {
    Pass1(p.statements + [st], p.symbols, Grow(p.section, Size(st)))
  }

  datatype ModesResult = Modes(mode1: Mode, mode2: Mode) | BadModes(line: nat, error: AsmError)

  /** The operand count must be the opcode's, and each operand's mode legal at its position. */
  function InstructionModes(line: nat, op: Opcode, operands: seq<ParsedOperand>): ModesResult {
    var masks := LegalModes(op);
    var n := OperandCount(op);
    if |operands| != n then BadModes(line, WrongOperandCount)
    else
      var r1 := if n >= 1 then ResolveMode(operands[0].kind, masks.0) else Legal(Absent);
      if r1.Illegal? then BadModes(operands[0].line, r1.error)
      else
        var r2 := if n >= 2 then ResolveMode(operands[1].kind, masks.1) else Legal(Absent);
        if r2.Illegal? then BadModes(operands[1].line, r2.error) else Modes(r1.mode, r2.mode)
  }

  function PlaceInstruction(line: nat, op: Opcode, operands: seq<ParsedOperand>, p: Pass1): PlaceResult {
    match InstructionModes(line, op, operands)
    case BadModes(l, e) => Misplaced(l, e)
    case Modes(m1, m2) =>
      Placed(Append(p, InstrStmt(line, p.section.inData, Cursor(p.section), op, operands, m1, m2)))
  }

  function PlaceOrg(line: nat, value: int, p: Pass1): PlaceResult {
    if value < 0 || value > 0xFFFF then Misplaced(line, OrgOutOfRange)
    else if value < Cursor(p.section) then Misplaced(line, OrgBackward)
    else Placed(Pass1(p.statements + [OrgStmt(line)], p.symbols, WithCursor(p.section, value)))
  }

  /** `.data`: once only; the data cursor starts where the code cursor stands. */
  function PlaceData(line: nat, p: Pass1): PlaceResult {
    if p.section.dataSeen then Misplaced(line, DataTwice)
    else
      Placed(Pass1(p.statements + [DataStmt(line)], p.symbols,
                   p.section.(dataSeen := true, inData := true, dataCursor := p.section.codeCursor)))
  }

  function PlaceLabel(line: nat, name: string, p: Pass1): PlaceResult {
    if name in p.symbols then Misplaced(line, DuplicateLabel)
    else
      var a := Cursor(p.section);
      Placed(Pass1(p.statements + [LabelStmt(line, name, a)], p.symbols[name := a], p.section))
  }

  function Place(item: Item, p: Pass1): PlaceResult {
    var inData, a := p.section.inData, Cursor(p.section);
    match item
    case LabelItem(line, name) => PlaceLabel(line, name, p)
    case InstrItem(line, op, operands) => PlaceInstruction(line, op, operands, p)
    case OrgItem(line, value) => PlaceOrg(line, value, p)
    case DataItem(line) => PlaceData(line, p)
    case StringItem(line, bytes) => Placed(Append(p, StringStmt(line, inData, a, bytes)))
    case WordItem(line, operand) => Placed(Append(p, WordStmt(line, inData, a, operand)))
    case ByteItem(line, value) => Placed(Append(p, ByteStmt(line, inData, a, value)))
  }

  /** Placing a list of items, stopping at the first that cannot be placed. */
  function LayOut(items: seq<Item>, p: Pass1): PlaceResult
    decreases |items|
  {
    if items == [] then Placed(p)
    else
      match Place(items[0], p)
      case Misplaced(line, e) => Misplaced(line, e)
      case Placed(q) => LayOut(items[1..], q)
  }

  /** Pass 1 as the parser runs it: each item is placed as soon as it is read. */
  function Build(ts: seq<Token>, at: Position, p: Pass1): PlaceResult
    requires Terminated(ts)
    decreases |ts|, Rank(at)
  {
    match Next(ts, at)
    case Finished => Placed(p)
    case Moved(rest, q) => Build(rest, q, p)
    case Read(item, rest, q) =>
      (match Place(item, p)
       case Misplaced(line, e) => Misplaced(line, e)
       case Placed(p') => Build(rest, q, p'))
    case Rejected(line, e) => Misplaced(line, e)
  }

  /** Reading everything first and placing it afterwards gives the same statements, and fails
      whenever pass 1 fails. */
  lemma {:induction false} BuildIsLayOut(ts: seq<Token>, at: Position, p: Pass1)
    requires Terminated(ts)
    ensures Items(ts, at).Parsed? ==> Build(ts, at, p) == LayOut(Items(ts, at).items, p)
    ensures Items(ts, at).ParseError? ==> Build(ts, at, p).Misplaced?
    decreases |ts|, Rank(at)
  {
    hide Next, Place;
    match Next(ts, at) {
      case Finished =>
      case Moved(rest, q) => BuildIsLayOut(rest, q, p);
      case Read(item, rest, q) =>
        if Place(item, p).Placed? {
          BuildIsLayOut(rest, q, Place(item, p).state);
        }
        if Items(rest, q).Parsed? {
          assert ([item] + Items(rest, q).items)[1..] == Items(rest, q).items;
        }
      case Rejected(_, _) =>
    }
  }

  lemma {:induction false} LayOutConcat(a: seq<Item>, b: seq<Item>, p: Pass1)
    ensures LayOut(a + b, p) ==
            match LayOut(a, p)
            case Misplaced(l, e) => Misplaced(l, e)
            case Placed(q) => LayOut(b, q)
    decreases |a|
  {
    hide Place;
    if a == [] {
      assert a + b == b;
    } else {
      assert (a + b)[1..] == a[1..] + b;
      if Place(a[0], p).Placed? {
        LayOutConcat(a[1..], b, Place(a[0], p).state);
      }
    }
  }
}
