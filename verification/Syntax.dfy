/** The syntax of assembly source: how the token stream reads as a sequence of
    labels, instructions and directives (src/assembler/parser.c, parsing functions). */
module Syntax {
  import opened Options
  import opened Words
  import opened Isa
  import opened Text
  import opened Lexer

  datatype OperandKind =
    | RegisterOp(index: nat)
    | IndirectOp(index: nat)
    | NumberOp(value: int)
    | MemNumberOp(value: int)
    | LabelOp(name: string)
    | MemLabelOp(name: string)

  datatype ParsedOperand = ParsedOperand(kind: OperandKind, line: nat)

  /** What one line can hold, before any address is known. */
  datatype Item =
    | LabelItem(line: nat, name: string)
    | InstrItem(line: nat, opcode: Opcode, operands: seq<ParsedOperand>)
    | OrgItem(line: nat, value: int)
    | DataItem(line: nat)
    | StringItem(line: nat, bytes: seq<byte>)
    | WordItem(line: nat, operand: ParsedOperand)
    | ByteItem(line: nat, value: int)

  datatype AsmError =
    | Lexical(fault: LexFault)
    | BadBracketContents | MissingBracket | MissingOperand
    | OrgNeedsNumber | StringNeedsLiteral | WordNeedsValue | ByteNeedsNumber | UnknownDirective
    | UnknownMnemonic | ExpectedStatement | ExpectedEndOfLine
    | DuplicateLabel | OrgOutOfRange | OrgBackward | DataTwice | NoCode
    | WrongOperandCount | RegisterNotLegal | IndirectNotLegal | RegisterOutOfRange | AddressNotLegal
    | NeedsBrackets | NoImmediateLegal
    | UndefinedLabel | ImmediateOutOfRange | ByteOutOfRange
    | Overrun

  // ---- names ----

  /** The mnemonic table, searched in order. */
  function LookupMnemonic(ident: string): Option<Opcode> {
    if IdentEquals(ident, "NOP") then Some(NOP)
    else if IdentEquals(ident, "MOV") then Some(MOV)
    else if IdentEquals(ident, "ADD") then Some(ADD)
    else if IdentEquals(ident, "SUB") then Some(SUB)
    else if IdentEquals(ident, "MUL") then Some(MUL)
    else if IdentEquals(ident, "DIV") then Some(DIV)
    else if IdentEquals(ident, "MOD") then Some(MOD)
    else if IdentEquals(ident, "AND") then Some(AND)
    else if IdentEquals(ident, "OR") then Some(OR)
    else if IdentEquals(ident, "XOR") then Some(XOR)
    else if IdentEquals(ident, "NOT") then Some(NOT)
    else if IdentEquals(ident, "SHL") then Some(SHL)
    else if IdentEquals(ident, "SHR") then Some(SHR)
    else if IdentEquals(ident, "LOAD") then Some(LOAD)
    else if IdentEquals(ident, "STORE") then Some(STORE)
    else if IdentEquals(ident, "PUSH") then Some(PUSH)
    else if IdentEquals(ident, "POP") then Some(POP)
    else if IdentEquals(ident, "CMP") then Some(CMP)
    else if IdentEquals(ident, "JMP") then Some(JMP)
    else if IdentEquals(ident, "JZ") then Some(JZ)
    else if IdentEquals(ident, "JNZ") then Some(JNZ)
    else if IdentEquals(ident, "JG") then Some(JG)
    else if IdentEquals(ident, "JGE") then Some(JGE)
    else if IdentEquals(ident, "JL") then Some(JL)
    else if IdentEquals(ident, "JLE") then Some(JLE)
    else if IdentEquals(ident, "JB") then Some(JB)
    else if IdentEquals(ident, "JAE") then Some(JAE)
    else if IdentEquals(ident, "JA") then Some(JA)
    else if IdentEquals(ident, "JBE") then Some(JBE)
    else if IdentEquals(ident, "CALL") then Some(CALL)
    else if IdentEquals(ident, "RET") then Some(RET)
    else if IdentEquals(ident, "SYS") then Some(SYS)
    else if IdentEquals(ident, "HALT") then Some(HALT)
    else None
  }

  /** The syscall table. */
  function SyscallCode(ident: string): Option<int> {
    if IdentEquals(ident, "PRINT_INT") then Some(1)
    else if IdentEquals(ident, "PRINT_CHAR") then Some(2)
    else if IdentEquals(ident, "READ_INT") then Some(3)
    else if IdentEquals(ident, "EXIT") then Some(4)
    else None
  }

  /** Accumulates digits until one is missing or the value passes 999; gives the value and what is left. */
  function ScanIndex(s: string, value: nat): (nat, string)
    decreases |s|
  {
    if s != "" && IsDecimal(s[0]) then
      var v := value * 10 + (s[0] as int - '0' as int);
      if v > 999 then (v, s[1..]) else ScanIndex(s[1..], v)
    else (value, s)
  }

  /** `Rn` or `rn`, with any index; the range is checked later. */
  function ParseRegister(ident: string): Option<nat> {
    if |ident| < 2 || (ident[0] != 'R' && ident[0] != 'r') || !IsDecimal(ident[1]) then None
    else
      var (value, rest) := ScanIndex(ident[1..], 0);
      if rest != "" then None else Some(value)
  }

  // ---- token streams ----

  /** A token list ends with its end-of-file token, as the lexer promises. */
  predicate Terminated(ts: seq<Token>) {
    ts != [] && ts[|ts| - 1].kind == Eof
  }

  /** Moving to the next token, never past the last. */
  function Advance(ts: seq<Token>): (r: seq<Token>)
    requires Terminated(ts)
    ensures Terminated(r)
    ensures ts[0].kind != Eof ==> |r| == |ts| - 1 && r == ts[1..]
  {
    if |ts| > 1 then ts[1..] else ts
  }

  datatype OperandResult = GotOp(operand: ParsedOperand, rest: seq<Token>) | BadOp(line: nat, error: AsmError)

  /** The operand after `[`, which is read and then must be closed. */
  function ReadBracketed(ts: seq<Token>, line: nat): (r: OperandResult)
    requires Terminated(ts)
    ensures r.GotOp? ==> Terminated(r.rest) && |r.rest| < |ts|
  {
    match ts[0].kind
    case Ident(text) =>
      var kind := match ParseRegister(text) case Some(i) => IndirectOp(i) case None => MemLabelOp(text);
      CloseBracket(Advance(ts), ParsedOperand(kind, line))
    case Num(v) => CloseBracket(Advance(ts), ParsedOperand(MemNumberOp(v), line))
    case _ => BadOp(ts[0].line, BadBracketContents)
  }

  function CloseBracket(ts: seq<Token>, operand: ParsedOperand): (r: OperandResult)
    requires Terminated(ts)
    ensures r.GotOp? ==> Terminated(r.rest) && |r.rest| < |ts|
  {
    if ts[0].kind == RBracket then GotOp(operand, Advance(ts)) else BadOp(ts[0].line, MissingBracket)
  }

  /** One operand; `sys` tells whether syscall names are numbers here. */
  function ReadOperand(ts: seq<Token>, sys: bool): (r: OperandResult)
    requires Terminated(ts)
    ensures r.GotOp? ==> Terminated(r.rest) && |r.rest| < |ts|
  {
    var line := ts[0].line;
    match ts[0].kind
    case LBracket => ReadBracketed(Advance(ts), line)
    case Ident(text) =>
      var kind :=
        match ParseRegister(text)
        case Some(i) => RegisterOp(i)
        case None =>
          if sys && SyscallCode(text).Some? then NumberOp(SyscallCode(text).value) else LabelOp(text);
      GotOp(ParsedOperand(kind, line), Advance(ts))
    case Num(v) => GotOp(ParsedOperand(NumberOp(v), line), Advance(ts))
    case _ => BadOp(line, MissingOperand)
  }

  datatype StatementResult = GotItem(item: Item, rest: seq<Token>) | BadItem(line: nat, error: AsmError)

  predicate AtLineEnd(ts: seq<Token>)
    requires Terminated(ts)
  {
    ts[0].kind == Newline || ts[0].kind == Eof
  }

  /** The operands of an instruction, after its mnemonic. */
  function ReadInstruction(ts: seq<Token>, op: Opcode, line: nat): (r: StatementResult)
    requires Terminated(ts)
    ensures r.GotItem? ==> Terminated(r.rest) && |r.rest| <= |ts|
  {
    if AtLineEnd(ts) then GotItem(InstrItem(line, op, []), ts)
    else
      match ReadOperand(ts, op == SYS)
      case BadOp(l, e) => BadItem(l, e)
      case GotOp(op1, rest1) =>
        if rest1[0].kind != Comma then GotItem(InstrItem(line, op, [op1]), rest1)
        else
          match ReadOperand(Advance(rest1), op == SYS)
          case BadOp(l, e) => BadItem(l, e)
          case GotOp(op2, rest2) => GotItem(InstrItem(line, op, [op1, op2]), rest2)
  }

  function ReadWord(ts: seq<Token>, line: nat): (r: StatementResult)
    requires Terminated(ts)
    ensures r.GotItem? ==> Terminated(r.rest) && |r.rest| <= |ts|
  {
    match ReadOperand(ts, false)
    case BadOp(l, e) => BadItem(l, e)
    case GotOp(op, rest) =>
      if op.kind.NumberOp? || op.kind.LabelOp? then GotItem(WordItem(line, op), rest) else BadItem(line, WordNeedsValue)
  }

  function ReadByte(ts: seq<Token>, line: nat): (r: StatementResult)
    requires Terminated(ts)
    ensures r.GotItem? ==> Terminated(r.rest) && |r.rest| <= |ts|
  {
    match ReadOperand(ts, false)
    case BadOp(l, e) => BadItem(l, e)
    case GotOp(op, rest) =>
      if op.kind.NumberOp? then GotItem(ByteItem(line, op.kind.value), rest) else BadItem(line, ByteNeedsNumber)
  }

  /** A directive's argument, after its name. */
  function ReadDirective(ts: seq<Token>, name: string, line: nat): (r: StatementResult)
    requires Terminated(ts)
    ensures r.GotItem? ==> Terminated(r.rest) && |r.rest| <= |ts|
  {
    if IdentEquals(name, "org") then
      if ts[0].kind.Num? then GotItem(OrgItem(line, ts[0].kind.value), Advance(ts)) else BadItem(line, OrgNeedsNumber)
    else if IdentEquals(name, "data") then GotItem(DataItem(line), ts)
    else if IdentEquals(name, "string") then
      if ts[0].kind.Str? then GotItem(StringItem(line, ts[0].kind.bytes), Advance(ts))
      else BadItem(line, StringNeedsLiteral)
    else if IdentEquals(name, "word") then ReadWord(ts, line)
    else if IdentEquals(name, "byte") then ReadByte(ts, line)
    else BadItem(line, UnknownDirective)
  }

  /** An instruction or a directive. */
  function ReadStatement(ts: seq<Token>): (r: StatementResult)
    requires Terminated(ts)
    ensures r.GotItem? ==> Terminated(r.rest) && |r.rest| < |ts|
  {
    var line := ts[0].line;
    match ts[0].kind
    case Directive(name) => ReadDirective(Advance(ts), name, line)
    case Ident(text) =>
      (match LookupMnemonic(text)
       case None => BadItem(line, UnknownMnemonic)
       case Some(op) => ReadInstruction(Advance(ts), op, line))
    case _ => BadItem(line, ExpectedStatement)
  }

  // ---- the sequence of items ----

  /** Where in a line the parser stands. */
  datatype Position = LineStart | AfterLabel | AfterStatement

  function Rank(p: Position): nat {
    match p case LineStart => 0 case AfterStatement => 1 case AfterLabel => 2
  }

  datatype Move =
    | Finished
    | Moved(rest: seq<Token>, position: Position)
    | Read(item: Item, rest: seq<Token>, position: Position)
    | Rejected(line: nat, error: AsmError)

  predicate StartsLabel(ts: seq<Token>)
    requires Terminated(ts)
  {
    ts[0].kind.Ident? && Advance(ts)[0].kind == Colon
  }

  function StatementMove(r: StatementResult): Move {
    match r
    case GotItem(item, rest) => Read(item, rest, AfterStatement)
    case BadItem(line, e) => Rejected(line, e)
  }

  predicate Onward(ts: seq<Token>, p: Position, rest: seq<Token>, q: Position) {
    Terminated(rest) && (|rest| < |ts| || (|rest| == |ts| && Rank(q) < Rank(p)))
  }

  /** The next thing the parser does: read an item, pass a line end, finish or stop at an error. */
  function Next(ts: seq<Token>, p: Position): (m: Move)
    requires Terminated(ts)
    ensures m.Moved? || m.Read? ==> Onward(ts, p, m.rest, m.position)
  {
    match p
    case LineStart =>
      if ts[0].kind == Eof then Finished
      else if ts[0].kind == Newline then Moved(Advance(ts), LineStart)
      else if StartsLabel(ts) then Read(LabelItem(ts[0].line, ts[0].kind.text), Advance(Advance(ts)), AfterLabel)
      else StatementMove(ReadStatement(ts))
    case AfterLabel =>
      if AtLineEnd(ts) then Moved(ts, AfterStatement) else StatementMove(ReadStatement(ts))
    case AfterStatement =>
      if ts[0].kind == Newline then Moved(Advance(ts), LineStart)
      else if ts[0].kind == Eof then Moved(ts, LineStart)
      else Rejected(ts[0].line, ExpectedEndOfLine)
  }

  datatype Parse = Parsed(items: seq<Item>) | ParseError(line: nat, error: AsmError)

  function WithItem(item: Item, r: Parse): Parse {
    match r
    case Parsed(items) => Parsed([item] + items)
    case ParseError(_, _) => r
  }

  /** All the items of a token stream, in order. */
  function Items(ts: seq<Token>, p: Position): Parse
    requires Terminated(ts)
    decreases |ts|, Rank(p)
  {
    match Next(ts, p)
    case Finished => Parsed([])
    case Moved(rest, q) => Items(rest, q)
    case Read(item, rest, q) => WithItem(item, Items(rest, q))
    case Rejected(line, e) => ParseError(line, e)
  }
}
