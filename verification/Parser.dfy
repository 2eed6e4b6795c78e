/** The parser as an object: a token position that moves forward, section cursors
    and a statement list updated in place, the first error kept; proved to run
    pass 1 of `Layout.Build` (src/assembler/parser.c, parse_operand to build_statements). */
module Parser {
  import opened Options
  import opened Words
  import opened Isa
  import opened Text
  import opened Lexer
  import opened Syntax
  import opened Layout
  import opened Symtab

  /** How pass 1 stands: stopped at its first error, or going on with the remaining tokens. */
  datatype Progress = Stop(line: nat, error: AsmError) | Go(rest: seq<Token>, state: Pass1)

  /** An item just read, placed. */
  function PlaceRead(r: StatementResult, p: Pass1): Progress {
    match r
    case BadItem(line, e) => Stop(line, e)
    case GotItem(item, rest) =>
      match Place(item, p)
      case Misplaced(line, e) => Stop(line, e)
      case Placed(q) => Go(rest, q)
  }

  /** One line: an optional label, then a statement unless the line ends. */
  function OneLine(ts: seq<Token>, p: Pass1): Progress
    requires Terminated(ts)
  {
    if StartsLabel(ts) then
      var rest := Advance(Advance(ts));
      match PlaceLabel(ts[0].line, ts[0].kind.text, p)
      case Misplaced(line, e) => Stop(line, e)
      case Placed(q) => if AtLineEnd(rest) then Go(rest, q) else PlaceRead(ReadStatement(rest), q)
    else PlaceRead(ReadStatement(ts), p)
  }

  /** Pass 1 from a line's first token is that line, then its end, then the lines after it. */
  lemma LineOfBuild(ts: seq<Token>, p: Pass1)
    requires Terminated(ts) && !AtLineEnd(ts)
    ensures match OneLine(ts, p)
            case Stop(line, e) => Build(ts, LineStart, p) == Misplaced(line, e)
            case Go(rest, q) =>
              Terminated(rest) && |rest| < |ts| && Build(ts, LineStart, p) == Build(rest, AfterStatement, q)
  {
    hide ReadStatement, PlaceInstruction, PlaceOrg, PlaceData, PlaceLabel;
    if StartsLabel(ts) {
      var rest := Advance(Advance(ts));
      assert Next(ts, LineStart) == Read(LabelItem(ts[0].line, ts[0].kind.text), rest, AfterLabel);
      if PlaceLabel(ts[0].line, ts[0].kind.text, p).Placed? {
        AfterLabelBuild(rest, PlaceLabel(ts[0].line, ts[0].kind.text, p).state);
      }
    }
  }

  lemma AfterLabelBuild(ts: seq<Token>, p: Pass1)
    requires Terminated(ts)
    ensures AtLineEnd(ts) ==> Build(ts, AfterLabel, p) == Build(ts, AfterStatement, p)
    ensures !AtLineEnd(ts) ==>
              match PlaceRead(ReadStatement(ts), p)
              case Stop(line, e) => Build(ts, AfterLabel, p) == Misplaced(line, e)
              case Go(rest, q) =>
                Terminated(rest) && |rest| < |ts| && Build(ts, AfterLabel, p) == Build(rest, AfterStatement, q)
  {
    hide ReadStatement, Place;
  }

  /** The section cursors. */
  class SectionState {
    var inData: bool
    var dataSeen: bool
    var codeCursor: word
    var dataCursor: word
    var codeStarted: bool
    var dataStarted: bool
    var codeStart: word
    var dataStart: word

    ghost function Snapshot(): Section
      reads this
    {
      Section(inData, dataSeen, codeCursor, dataCursor, codeStarted, dataStarted, codeStart, dataStart)
    }

    constructor ()
      ensures Snapshot() == AT_ZERO
    {
      inData, dataSeen, codeCursor, dataCursor := false, false, 0, 0;
      codeStarted, dataStarted, codeStart, dataStart := false, false, 0, 0;
    }

    method ActiveCursor() returns (c: word)
      ensures c == Cursor(Snapshot())
    {
      c := if inData then dataCursor else codeCursor;
    }

    method MoveCursor(c: word)
      modifies this
      ensures Snapshot() == WithCursor(old(Snapshot()), c)
    {
      if inData {
        dataCursor := c;
      } else {
        codeCursor := c;
      }
    }

    method NoteSectionStart(address: word)
      requires address == Cursor(Snapshot())
      modifies this
      ensures Snapshot() == NoteStart(old(Snapshot()))
    {
      if inData {
        if !dataStarted {
          dataStarted := true;
          dataStart := address;
        }
      } else {
        if !codeStarted {
          codeStarted := true;
          codeStart := address;
        }
      }
    }

    method BeginData()
      modifies this
      ensures Snapshot() == old(Snapshot()).(dataSeen := true, inData := true, dataCursor := old(Snapshot()).codeCursor)
    {
      dataSeen := true;
      inData := true;
      dataCursor := codeCursor;
    }
  }

  /** The operand count must be the opcode's, and each operand's mode legal at its position. */
  method ResolveModes(opcode: Opcode, line: nat, operands: seq<ParsedOperand>) returns (r: ModesResult)
    ensures r == InstructionModes(line, opcode, operands)
  {
    hide ResolveMode, LegalModes;
    var masks := LegalModes(opcode);
    var expectedCount := OperandCount(opcode);
    if |operands| != expectedCount {
      return BadModes(line, WrongOperandCount);
    }
    var mode1, mode2 := Absent, Absent;
    if expectedCount >= 1 {
      var m := ResolveMode(operands[0].kind, masks.0);
      if m.Illegal? {
        return BadModes(operands[0].line, m.error);
      }
      mode1 := m.mode;
    }
    if expectedCount >= 2 {
      var m := ResolveMode(operands[1].kind, masks.1);
      if m.Illegal? {
        return BadModes(operands[1].line, m.error);
      }
      mode2 := m.mode;
    }
    r := Modes(mode1, mode2);
  }

  class Parser {
    const tokens: seq<Token>
    const symtab: SymbolTable
    const sec: SectionState
    var pos: nat
    var statements: seq<Statement>
    var hadError: bool
    var errorLine: nat
    var error: AsmError

    ghost predicate Valid()
      reads this, symtab
    {
      symtab.Valid() && Terminated(tokens) && pos < |tokens|
    }

    ghost function Repr(): set<object> {
      {this, symtab, sec}
    }

    /** The tokens still to come, the current one first. */
    ghost function Rest(): seq<Token>
      requires pos < |tokens|
      reads this
    {
      tokens[pos..]
    }

    ghost function State(): Pass1
      reads this, symtab, sec
    {
      Pass1(statements, symtab.Table(), sec.Snapshot())
    }

    ghost function Now(): Progress
      requires pos < |tokens|
      reads this, symtab, sec
    {
      if hadError then Stop(errorLine, error) else Go(Rest(), State())
    }

    constructor (tokens: seq<Token>)
      requires Terminated(tokens)
      ensures Valid() && fresh(Repr()) && this.tokens == tokens
      ensures !hadError && Now() == Go(tokens, NOTHING_PLACED)
    {
      this.tokens := tokens;
      symtab := new SymbolTable();
      sec := new SectionState();
      pos, statements := 0, [];
      hadError, errorLine, error := false, 0, NoCode;
    }

    method AdvancePos()
      requires Valid()
      modifies this`pos
      ensures Valid() && Rest() == Advance(old(Rest()))
    {
      if pos + 1 < |tokens| {
        pos := pos + 1;
      }
    }

    /** Keeps the first error. */
    method Fail(line: nat, e: AsmError)
      requires Valid()
      modifies this`hadError, this`errorLine, this`error
      ensures Valid() && hadError
      ensures !old(hadError) ==> Now() == Stop(line, e)
      ensures old(hadError) ==> errorLine == old(errorLine) && error == old(error)
    {
      if hadError {
        return;
      }
      hadError := true;
      errorLine := line;
      error := e;
    }

    /** The inside of brackets, after `[`; on an error the operand returned is not used. */
    method ParseBracketed(line: nat) returns (op: ParsedOperand)
      requires Valid() && !hadError
      modifies this`pos, this`hadError, this`errorLine, this`error
      ensures Valid()
      ensures OperandParsed(ReadBracketed(old(Rest()), line), op)
    {
      hide ParseRegister, Advance;
      op := ParsedOperand(NumberOp(0), line);
      match tokens[pos].kind {
        case Ident(text) =>
          var register := ParseRegister(text);
          op := ParsedOperand(if register.Some? then IndirectOp(register.value) else MemLabelOp(text), line);
        case Num(v) => op := ParsedOperand(MemNumberOp(v), line);
        case _ =>
          Fail(tokens[pos].line, BadBracketContents);
          return;
      }
      AdvancePos();
      if tokens[pos].kind != RBracket {
        Fail(tokens[pos].line, MissingBracket);
        return;
      }
      AdvancePos();
    }

    /** The parser stands as this reading of an operand says. */
    ghost predicate OperandParsed(r: OperandResult, op: ParsedOperand)
      requires pos < |tokens|
      reads this
    {
      match r
      case BadOp(line, e) => hadError && errorLine == line && error == e
      case GotOp(o, rest) => !hadError && op == o && Rest() == rest
    }

    /** One operand; on an error the operand returned is not used. */
    method ParseOperand(sys: bool) returns (op: ParsedOperand)
      requires Valid() && !hadError
      modifies this`pos, this`hadError, this`errorLine, this`error
      ensures Valid()
      ensures OperandParsed(ReadOperand(old(Rest()), sys), op)
    {
      hide ParseRegister, SyscallCode, ReadBracketed, Advance;
      var line := tokens[pos].line;
      op := ParsedOperand(NumberOp(0), line);
      match tokens[pos].kind {
        case LBracket =>
          AdvancePos();
          op := ParseBracketed(line);
        case Ident(text) =>
          var register := ParseRegister(text);
          if register.Some? {
            op := ParsedOperand(RegisterOp(register.value), line);
          } else if sys && SyscallCode(text).Some? {
            op := ParsedOperand(NumberOp(SyscallCode(text).value), line);
          } else {
            op := ParsedOperand(LabelOp(text), line);
          }
          AdvancePos();
        case Num(v) =>
          op := ParsedOperand(NumberOp(v), line);
          AdvancePos();
        case _ => Fail(line, MissingOperand);
      }
    }

    /** Records a sized statement at the cursor and moves the cursor past it. */
    method PushSized(st: Statement)
      requires Valid() && Sized(st)
      requires st.inData == sec.inData && st.address == Cursor(sec.Snapshot())
      modifies this`statements, sec
      ensures Valid() && State() == Append(old(State()), st)
    {
      sec.NoteSectionStart(st.address);
      sec.MoveCursor(Wrap(st.address + Size(st)));
      statements := statements + [st];
    }

    /** Records a statement that takes no space. */
    method PushUnsized(st: Statement)
      requires Valid()
      modifies this`statements
      ensures Valid() && State() == old(State()).(statements := old(statements) + [st])
    {
      statements := statements + [st];
    }

    /** Counts the operands and resolves their modes, then places the instruction. */
    method PlaceParsed(opcode: Opcode, line: nat, operands: seq<ParsedOperand>)
      requires Valid() && !hadError
      modifies this`statements, this`hadError, this`errorLine, this`error, sec
      ensures Valid()
      ensures Now() == PlaceRead(GotItem(InstrItem(line, opcode, operands), old(Rest())), old(State()))
    {
      hide InstructionModes, Grow;
      var r := ResolveModes(opcode, line, operands);
      if r.BadModes? {
        Fail(r.line, r.error);
        return;
      }
      var address := sec.ActiveCursor();
      PushSized(InstrStmt(line, sec.inData, address, opcode, operands, r.mode1, r.mode2));
    }

    method ParseInstructionStatement(opcode: Opcode, line: nat)
      requires Valid() && !hadError
      modifies this`pos, this`statements, this`hadError, this`errorLine, this`error, sec
      ensures Valid()
      ensures Now() == PlaceRead(ReadInstruction(old(Rest()), opcode, line), old(State()))
    {
      hide ReadOperand, PlaceInstruction;
      var operands: seq<ParsedOperand> := [];
      if tokens[pos].kind != Newline && tokens[pos].kind != Eof {
        var op1 := ParseOperand(opcode == SYS);
        if hadError {
          return;
        }
        operands := [op1];
        if tokens[pos].kind == Comma {
          AdvancePos();
          var op2 := ParseOperand(opcode == SYS);
          if hadError {
            return;
          }
          operands := [op1, op2];
        }
      }
      PlaceParsed(opcode, line, operands);
    }

    method ParseOrg(line: nat)
      requires Valid() && !hadError
      modifies this`pos, this`statements, this`hadError, this`errorLine, this`error, sec
      ensures Valid()
      ensures Now() == PlaceRead(
                if old(Rest())[0].kind.Num? then GotItem(OrgItem(line, old(Rest())[0].kind.value), Advance(old(Rest())))
                else BadItem(line, OrgNeedsNumber), old(State()))
    {
      if !tokens[pos].kind.Num? {
        Fail(line, OrgNeedsNumber);
        return;
      }
      var value := tokens[pos].kind.value;
      AdvancePos();
      if value < 0 || value > 0xFFFF {
        Fail(line, OrgOutOfRange);
        return;
      }
      var cursor := sec.ActiveCursor();
      if value < cursor {
        Fail(line, OrgBackward);
        return;
      }
      sec.MoveCursor(value);
      PushUnsized(OrgStmt(line));
    }

    method ParseData(line: nat)
      requires Valid() && !hadError
      modifies this`statements, this`hadError, this`errorLine, this`error, sec
      ensures Valid()
      ensures Now() == PlaceRead(GotItem(DataItem(line), old(Rest())), old(State()))
    {
      if sec.dataSeen {
        Fail(line, DataTwice);
        return;
      }
      sec.BeginData();
      PushUnsized(DataStmt(line));
    }

    method ParseString(line: nat)
      requires Valid() && !hadError
      modifies this`pos, this`statements, this`hadError, this`errorLine, this`error, sec
      ensures Valid()
      ensures Now() == PlaceRead(
                if old(Rest())[0].kind.Str? then
                  GotItem(StringItem(line, old(Rest())[0].kind.bytes), Advance(old(Rest())))
                else BadItem(line, StringNeedsLiteral), old(State()))
    {
      hide Grow;
      if !tokens[pos].kind.Str? {
        Fail(line, StringNeedsLiteral);
        return;
      }
      var bytes := tokens[pos].kind.bytes;
      var address := sec.ActiveCursor();
      AdvancePos();
      PushSized(StringStmt(line, sec.inData, address, bytes));
    }

    method ParseWord(line: nat)
      requires Valid() && !hadError
      modifies this`pos, this`statements, this`hadError, this`errorLine, this`error, sec
      ensures Valid()
      ensures Now() == PlaceRead(ReadWord(old(Rest()), line), old(State()))
    {
      hide ReadOperand, Grow;
      var operand := ParseOperand(false);
      if hadError {
        return;
      }
      if !operand.kind.NumberOp? && !operand.kind.LabelOp? {
        Fail(line, WordNeedsValue);
        return;
      }
      var address := sec.ActiveCursor();
      PushSized(WordStmt(line, sec.inData, address, operand));
    }

    method ParseByte(line: nat)
      requires Valid() && !hadError
      modifies this`pos, this`statements, this`hadError, this`errorLine, this`error, sec
      ensures Valid()
      ensures Now() == PlaceRead(ReadByte(old(Rest()), line), old(State()))
    {
      hide ReadOperand, Grow;
      var operand := ParseOperand(false);
      if hadError {
        return;
      }
      if !operand.kind.NumberOp? {
        Fail(line, ByteNeedsNumber);
        return;
      }
      var address := sec.ActiveCursor();
      PushSized(ByteStmt(line, sec.inData, address, operand.kind.value));
    }

    method ParseDirectiveStatement(name: string, line: nat)
      requires Valid() && !hadError && tokens[pos].kind == Directive(name) && tokens[pos].line == line
      modifies this`pos, this`statements, this`hadError, this`errorLine, this`error, sec
      ensures Valid()
      ensures Now() == PlaceRead(ReadStatement(old(Rest())), old(State()))
    {
      hide IdentEquals, ReadWord, ReadByte, Place;
      AdvancePos();
      if IdentEquals(name, "org") {
        ParseOrg(line);
      } else if IdentEquals(name, "data") {
        ParseData(line);
      } else if IdentEquals(name, "string") {
        ParseString(line);
      } else if IdentEquals(name, "word") {
        ParseWord(line);
      } else if IdentEquals(name, "byte") {
        ParseByte(line);
      } else {
        Fail(line, UnknownDirective);
      }
    }

    /** A directive or an instruction. */
    method ParseStatement()
      requires Valid() && !hadError
      modifies this`pos, this`statements, this`hadError, this`errorLine, this`error, sec
      ensures Valid()
      ensures Now() == PlaceRead(ReadStatement(old(Rest())), old(State()))
    {
      hide ReadDirective, ReadInstruction, LookupMnemonic, Place;
      var line := tokens[pos].line;
      match tokens[pos].kind {
        case Directive(name) => ParseDirectiveStatement(name, line);
        case Ident(mnemonic) =>
          var opcode := LookupMnemonic(mnemonic);
          if opcode.None? {
            Fail(line, UnknownMnemonic);
            return;
          }
          AdvancePos();
          ParseInstructionStatement(opcode.value, line);
        case _ => Fail(line, ExpectedStatement);
      }
    }

    /** A label's definition, its colon already passed. */
    method DefineLabel(name: string, line: nat)
      requires Valid() && !hadError
      modifies this`statements, this`hadError, this`errorLine, this`error, symtab
      ensures Valid()
      ensures match PlaceLabel(line, name, old(State()))
              case Misplaced(l, e) => Now() == Stop(l, e)
              case Placed(q) => Now() == Go(old(Rest()), q)
    {
      var address := sec.ActiveCursor();
      var ok := symtab.Define(name, address);
      if !ok {
        Fail(line, DuplicateLabel);
        return;
      }
      PushUnsized(LabelStmt(line, name, address));
    }

    method ParseLine()
      requires Valid() && !hadError && tokens[pos].kind != Newline && tokens[pos].kind != Eof
      modifies this, symtab, sec
      ensures Valid()
      ensures Now() == OneLine(old(Rest()), old(State()))
    {
      hide ReadStatement, PlaceLabel, PlaceRead;
      if tokens[pos].kind.Ident? {
        var save := pos;
        var name := tokens[pos].kind.text;
        var nameLine := tokens[pos].line;
        AdvancePos();
        if tokens[pos].kind == Colon {
          AdvancePos();
          DefineLabel(name, nameLine);
          if hadError {
            return;
          }
          if tokens[pos].kind == Newline || tokens[pos].kind == Eof {
            return;
          }
        } else {
          pos := save;
        }
      }
      ParseStatement();
    }

    /** The loop over lines: pass 1 of the whole token list. */
    method BuildStatements()
      requires Valid() && !hadError && pos == 0 && State() == NOTHING_PLACED
      requires forall i | 0 <= i < |tokens| - 1 :: tokens[i].kind != Eof
      modifies this, symtab, sec
      ensures Valid()
      ensures match Build(tokens, LineStart, NOTHING_PLACED)
              case Misplaced(line, e) => Now() == Stop(line, e)
              case Placed(p) =>
                if p.section.codeStarted then !hadError && State() == p
                else Now() == Stop(tokens[|tokens| - 1].line, NoCode)
    {
      hide Build, OneLine;
      assert tokens[0..] == tokens;
      while tokens[pos].kind != Eof
        invariant Valid() && !hadError
        invariant Build(Rest(), LineStart, State()) == Build(tokens, LineStart, NOTHING_PLACED)
        decreases |tokens| - pos
      {
        ghost var ts, p := Rest(), State();
        if tokens[pos].kind == Newline {
          BlankLines(ts, p);
          AdvancePos();
        } else {
          LineOfBuild(ts, p);
          ParseLine();
          if hadError {
            return;
          }
          LineEndBuild(Rest(), State());
          if tokens[pos].kind == Newline {
            AdvancePos();
          } else if tokens[pos].kind != Eof {
            Fail(tokens[pos].line, ExpectedEndOfLine);
            return;
          }
        }
      }
      FileEnd(Rest(), State());
      if !sec.codeStarted {
        Fail(tokens[pos].line, NoCode);
      }
    }
  }

  lemma BlankLines(ts: seq<Token>, p: Pass1)
    requires Terminated(ts) && ts[0].kind == Newline
    ensures Build(ts, LineStart, p) == Build(Advance(ts), LineStart, p)
  {
  }

  /** After a statement the line must end. */
  lemma LineEndBuild(ts: seq<Token>, p: Pass1)
    requires Terminated(ts)
    ensures ts[0].kind == Newline ==> Build(ts, AfterStatement, p) == Build(Advance(ts), LineStart, p)
    ensures ts[0].kind == Eof ==> Build(ts, AfterStatement, p) == Build(ts, LineStart, p)
    ensures !AtLineEnd(ts) ==> Build(ts, AfterStatement, p) == Misplaced(ts[0].line, ExpectedEndOfLine)
  {
  }

  lemma FileEnd(ts: seq<Token>, p: Pass1)
    requires Terminated(ts) && ts[0].kind == Eof
    ensures Build(ts, LineStart, p) == Placed(p)
  {
  }
}
