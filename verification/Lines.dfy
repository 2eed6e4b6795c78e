/** Every line the disassembler prints lexes to its tokens and reads back as one item
    (src/disassembler.c against src/assembler/lexer.c and parser.c). */
module Lines {
  import opened Options
  import opened Words
  import opened Isa
  import opened Text
  import opened Lexer
  import opened Syntax
  import opened Disassembler
  import opened Printing

  // ---- lexing ----

  /** The tokens of the second operand with its comma. */
  function SecondKinds(i: Instruction): seq<TokenKind> {
    if i.op2.mode == Absent then [] else [Comma] + OperandKinds(i.opcode, i.op2, LegalModes(i.opcode).1)
  }

  function SecondText(i: Instruction): string {
    if i.op2.mode == Absent then "" else ", " + FormatOperand(i.opcode, i.op2, LegalModes(i.opcode).1)
  }

  function OperandsKinds(i: Instruction): seq<TokenKind> {
    if i.op1.mode == Absent then [] else OperandKinds(i.opcode, i.op1, LegalModes(i.opcode).0) + SecondKinds(i)
  }

  function OperandsText(i: Instruction): string {
    if i.op1.mode == Absent then "" else " " + (FormatOperand(i.opcode, i.op1, LegalModes(i.opcode).0) + SecondText(i))
  }

  function InstructionKinds(i: Instruction): seq<TokenKind> {
    [Ident(MnemonicFor(i.opcode))] + OperandsKinds(i)
  }

  lemma FormatParts(i: Instruction)
    ensures FormatInstruction(i) == MnemonicFor(i.opcode) + OperandsText(i)
  {
    hide MnemonicFor, FormatOperand, LegalModes;
    var f := FormatOperand(i.opcode, i.op1, LegalModes(i.opcode).0);
    assert " " + (f + SecondText(i)) == " " + f + SecondText(i);
  }

  lemma NothingLexes(s: string, line: nat)
    ensures LexesTo("", [], s, line)
  {
    hide Lex;
    assert "" + s == s;
    if Lex(s, line).Tokens? {
      assert [] + Lex(s, line).tokens == Lex(s, line).tokens;
    }
  }

  lemma AfterSpace(text: string, kinds: seq<TokenKind>, s: string, line: nat)
    requires LexesTo(text, kinds, s, line)
    ensures LexesTo(" " + text, kinds, s, line)
  {
    hide LexesTo;
    SpaceLexes(text + s, line);
    LexesConcat(" ", [], text, kinds, s, line);
    assert [] + kinds == kinds;
  }

  lemma SecondLexes(i: Instruction, s: string, line: nat)
    requires WellFormed(i) && Follows(s)
    ensures LexesTo(SecondText(i), SecondKinds(i), s, line)
  {
    hide LexesTo, FormatOperand, OperandKinds, Follows, LegalModes;
    if i.op2.mode == Absent {
      NothingLexes(s, line);
    } else {
      var mask := LegalModes(i.opcode).1;
      var f, k := FormatOperand(i.opcode, i.op2, mask), OperandKinds(i.opcode, i.op2, mask);
      OperandLexes(i.opcode, i.op2, mask, s, line);
      AfterSpace(f, k, s, line);
      PunctuationLexes(',', (" " + f) + s, line);
      LexesConcat(",", [Comma], " " + f, k, s, line);
      assert "," + (" " + f) == ", " + f;
    }
  }

  lemma SecondFollows(i: Instruction, s: string)
    requires Follows(s)
    ensures Follows(SecondText(i) + s) && Follows(OperandsText(i) + s)
  {
    hide FormatOperand, LegalModes;
    assert "" + s == s;
  }

  lemma InstructionLexes(i: Instruction, s: string, line: nat)
    requires WellFormed(i) && Follows(s)
    ensures LexesTo(FormatInstruction(i), InstructionKinds(i), s, line)
  {
    hide LexesTo, FormatOperand, FormatInstruction, OperandKinds, Follows, LegalModes, MnemonicFor, IsWord, SecondText,
         SecondKinds;
    var mask := LegalModes(i.opcode).0;
    FormatParts(i);
    SecondFollows(i, s);
    if i.op1.mode == Absent {
      NothingLexes(s, line);
    } else {
      SecondLexes(i, s, line);
      OperandLexes(i.opcode, i.op1, mask, SecondText(i) + s, line);
      LexesConcat(FormatOperand(i.opcode, i.op1, mask), OperandKinds(i.opcode, i.op1, mask),
                  SecondText(i), SecondKinds(i), s, line);
      AfterSpace(FormatOperand(i.opcode, i.op1, mask) + SecondText(i), OperandsKinds(i), s, line);
    }
    MnemonicIsWord(i.opcode);
    IdentLexes(MnemonicFor(i.opcode), OperandsText(i) + s, line);
    LexesConcat(MnemonicFor(i.opcode), [Ident(MnemonicFor(i.opcode))], OperandsText(i), OperandsKinds(i), s, line);
  }

  function BodyKinds(l: Line): seq<TokenKind> {
    match l
    case CommentLine(_) | BlankLine => []
    case OrgLine(a) => [Directive("org"), Num(a)]
    case DataLine => [Directive("data")]
    case ByteLine(b) => [Directive("byte"), Num(b)]
    case InstrLine(i) => InstructionKinds(i)
  }

  predicate Printable(l: Line) {
    match l
    case CommentLine(text) => AllIn(text, CommentChar)
    case InstrLine(i) => WellFormed(i)
    case _ => true
  }

  lemma CommentLexes(text: string, s: string, line: nat)
    requires AllIn(text, CommentChar) && (s == "" || s[0] == '\n')
    ensures LexesTo(";" + text, [], s, line)
  {
    var w := ";" + text;
    assert AllIn(w, CommentChar);
    SpanExact(CommentChar, w, s);
    PieceSuffix(w, s);
    hide Span;
    assert (w + s)[0] == ';';
    assert Lex(w + s, line) == Lex(s, line);
    NothingLexes(s, line);
  }

  lemma DirectiveLexes(w: string, s: string, line: nat)
    requires w != "" && AllIn(w, Alpha) && Follows(s)
    ensures LexesTo("." + w, [Directive(w)], s, line)
  {
    hide Lex, Prefixed, OnLine;
    LexDirective(w, s, line);
    OneOnLine(Directive(w), line);
  }

  lemma ByteNumberLexes(b: byte, s: string, line: nat)
    requires Follows(s)
    ensures LexesTo("0x" + Hex(b, 2), [Num(b)], s, line)
  {
    hide Lex, Prefixed, OnLine, Hex, Pow16;
    Widths();
    LexHex(b, 2, s, line);
    OneOnLine(Num(b), line);
  }

  /** `.name` and, after a space, its number. */
  lemma NumberedDirectiveLexes(w: string, number: string, v: int, s: string, line: nat)
    requires w != "" && AllIn(w, Alpha) && LexesTo(number, [Num(v)], s, line)
    ensures LexesTo(("." + w) + (" " + number), [Directive(w), Num(v)], s, line)
  {
    hide LexesTo;
    AfterSpace(number, [Num(v)], s, line);
    DirectiveLexes(w, (" " + number) + s, line);
    LexesConcat("." + w, [Directive(w)], " " + number, [Num(v)], s, line);
    assert [Directive(w)] + [Num(v)] == [Directive(w), Num(v)];
  }

  lemma Indented(text: string, kinds: seq<TokenKind>, s: string, line: nat)
    requires LexesTo(text, kinds, s, line)
    ensures LexesTo("    " + text, kinds, s, line)
  {
    hide LexesTo;
    AfterSpace(text, kinds, s, line);
    AfterSpace(" " + text, kinds, s, line);
    AfterSpace(" " + (" " + text), kinds, s, line);
    AfterSpace(" " + (" " + (" " + text)), kinds, s, line);
    assert " " + (" " + (" " + (" " + text))) == "    " + text;
  }

  lemma BodyLexes(l: Line, s: string, line: nat)
    requires Printable(l) && s != "" && s[0] == '\n'
    ensures LexesTo(Body(l), BodyKinds(l), s, line)
  {
    hide LexesTo, FormatInstruction, InstructionKinds, WellFormed, Hex;
    match l {
      case CommentLine(text) => CommentLexes(text, s, line);
      case BlankLine => NothingLexes(s, line);
      case OrgLine(a) =>
        AddressLexes(a, s, line);
        NumberedDirectiveLexes("org", Address(a), a, s, line);
        assert ("." + "org") + (" " + Address(a)) == ".org " + Address(a);
      case DataLine =>
        DirectiveLexes("data", s, line);
        assert "." + "data" == ".data";
      case ByteLine(b) =>
        ByteNumberLexes(b, s, line);
        NumberedDirectiveLexes("byte", "0x" + Hex(b, 2), b, s, line);
        Indented(("." + "byte") + (" " + ("0x" + Hex(b, 2))), BodyKinds(l), s, line);
        assert "    " + (("." + "byte") + (" " + ("0x" + Hex(b, 2)))) == "    .byte 0x" + Hex(b, 2);
      case InstrLine(i) =>
        InstructionLexes(i, s, line);
        Indented(FormatInstruction(i), InstructionKinds(i), s, line);
    }
  }

  /** The tokens of a printed line, its newline included. */
  function LineTokens(l: Line, line: nat): seq<Token> {
    OnLine(BodyKinds(l), line) + [Token(Newline, line)]
  }

  /** A printed line lexes to its tokens, and the text after it to its own, one line further on. */
  lemma LineLexes(l: Line, rest: string, line: nat)
    requires Printable(l)
    ensures Lex(PrintLine(l) + rest, line) == Prefixed(LineTokens(l, line), Lex(rest, line + 1))
  {
    hide Body, BodyKinds, OnLine, Printable;
    var s := "\n" + rest;
    BodyLexes(l, s, line);
    assert PrintLine(l) + rest == Body(l) + s;
    assert s[1..] == rest;
    assert Lex(s, line) == Prefixed([Token(Newline, line)], Lex(rest, line + 1));
    hide Lex;
    if Lex(rest, line + 1).Tokens? {
      var us := Lex(rest, line + 1).tokens;
      var k := OnLine(BodyKinds(l), line);
      assert k + ([Token(Newline, line)] + us) == (k + [Token(Newline, line)]) + us;
    }
  }

  // ---- reading ----

  /** The syntax an operand was printed in. */
  function KindOf(o: Operand, mask: ModeMask): OperandKind
    requires o.mode != Absent
  {
    match o.mode
    case Reg => RegisterOp(o.value)
    case RegIndirect => IndirectOp(o.value)
    case Imm16 | Imm8 => NumberOp(o.value)
    case MemDirect => if mask.regIndirect then MemNumberOp(o.value) else NumberOp(o.value)
  }

  function OperandsOf(i: Instruction, line: nat): seq<ParsedOperand> {
    if i.op1.mode == Absent then []
    else
      [ParsedOperand(KindOf(i.op1, LegalModes(i.opcode).0), line)]
      + if i.op2.mode == Absent then [] else [ParsedOperand(KindOf(i.op2, LegalModes(i.opcode).1), line)]
  }

  /** The item a line reads back as, if any. */
  function LineItems(l: Line, line: nat): seq<Item> {
    match l
    case CommentLine(_) | BlankLine => []
    case OrgLine(a) => [OrgItem(line, a)]
    case DataLine => [DataItem(line)]
    case ByteLine(b) => [ByteItem(line, b)]
    case InstrLine(i) => [InstrItem(line, i.opcode, OperandsOf(i, line))]
  }

  lemma AdvanceOver(t: Token, rest: seq<Token>)
    requires Terminated(rest)
    ensures Terminated([t] + rest) && ([t] + rest)[0] == t && Advance([t] + rest) == rest
  {
  }

  lemma OneToken(k: TokenKind, line: nat, rest: seq<Token>)
    ensures OnLine([k], line) + rest == [Token(k, line)] + rest
  {
    OneOnLine(k, line);
  }

  lemma ThreeTokens(k1: TokenKind, k2: TokenKind, k3: TokenKind, line: nat, rest: seq<Token>)
    ensures OnLine([k1, k2, k3], line) + rest
         == [Token(k1, line)] + ([Token(k2, line)] + ([Token(k3, line)] + rest))
  {
    OnLineConcat([k1], [k2] + [k3], line);
    OnLineConcat([k2], [k3], line);
    assert [k1] + ([k2] + [k3]) == [k1, k2, k3];
    OneOnLine(k1, line);
    OneOnLine(k2, line);
    OneOnLine(k3, line);
    hide OnLine;
  }

  lemma BracketReads(k: TokenKind, sys: bool, line: nat, rest: seq<Token>)
    requires Terminated(rest)
    requires k.Num? || (k.Ident? && ParseRegister(k.text).Some?)
    ensures var ts := OnLine([LBracket, k, RBracket], line) + rest;
            && Terminated(ts)
            && ReadOperand(ts, sys)
               == GotOp(ParsedOperand(if k.Num? then MemNumberOp(k.value)
                                   else IndirectOp(ParseRegister(k.text).value), line), rest)
  {
    hide ParseRegister, OnLine;
    ThreeTokens(LBracket, k, RBracket, line, rest);
    var r1 := [Token(RBracket, line)] + rest;
    var r2 := [Token(k, line)] + r1;
    AdvanceOver(Token(RBracket, line), rest);
    AdvanceOver(Token(k, line), r1);
    AdvanceOver(Token(LBracket, line), r2);
  }

  lemma SyscallReads(code: word, line: nat, rest: seq<Token>)
    requires SyscallNameFor(code).Some? && Terminated(rest)
    ensures var ts := OnLine([Ident(SyscallNameFor(code).value)], line) + rest;
            Terminated(ts) && ReadOperand(ts, true) == GotOp(ParsedOperand(NumberOp(code), line), rest)
  {
    hide ParseRegister, OnLine, SyscallNameFor, SyscallCode;
    var name := SyscallNameFor(code).value;
    SyscallWords(code);
    SyscallLooksUp(code);
    OneToken(Ident(name), line, rest);
    AdvanceOver(Token(Ident(name), line), rest);
  }

  /** A printed operand reads back as the operand it was printed from. */
  lemma OperandReads(op: Opcode, o: Operand, mask: ModeMask, line: nat, rest: seq<Token>)
    requires ValueFits(o) && o.mode != Absent && Terminated(rest)
    ensures var ts := OnLine(OperandKinds(op, o, mask), line) + rest;
            && Terminated(ts)
            && ReadOperand(ts, op == SYS) == GotOp(ParsedOperand(KindOf(o, mask), line), rest)
  {
    hide ParseRegister, OnLine, RegisterName, SyscallNameFor, SyscallCode;
    var sys := op == SYS;
    match o.mode {
      case Reg =>
        RegisterReads(o.value);
        OneToken(Ident(RegisterName(o.value)), line, rest);
        AdvanceOver(Token(Ident(RegisterName(o.value)), line), rest);
      case RegIndirect =>
        RegisterReads(o.value);
        BracketReads(Ident(RegisterName(o.value)), sys, line, rest);
      case Imm16 =>
        OneToken(Num(o.value), line, rest);
        AdvanceOver(Token(Num(o.value), line), rest);
      case Imm8 =>
        if sys && SyscallNameFor(o.value).Some? {
          SyscallReads(o.value, line, rest);
        } else {
          OneToken(Num(o.value), line, rest);
          AdvanceOver(Token(Num(o.value), line), rest);
        }
      case MemDirect =>
        if mask.regIndirect {
          BracketReads(Num(o.value), sys, line, rest);
        } else {
          OneToken(Num(o.value), line, rest);
          AdvanceOver(Token(Num(o.value), line), rest);
        }
    }
  }

  lemma FirstOperandToken(op: Opcode, o: Operand, mask: ModeMask, line: nat, rest: seq<Token>)
    requires o.mode != Absent
    ensures var ts := OnLine(OperandKinds(op, o, mask), line) + rest;
            ts != [] && ts[0].kind !in {Newline, Eof, Colon, Comma}
  {
  }

  lemma SecondReads(i: Instruction, line: nat, rest: seq<Token>)
    requires WellFormed(i) && i.op2.mode != Absent && Terminated(rest)
    ensures var k2 := OperandKinds(i.opcode, i.op2, LegalModes(i.opcode).1);
            var ts := OnLine([Comma] + k2, line) + rest;
            && Terminated(ts) && ts[0].kind == Comma
            && ReadOperand(Advance(ts), i.opcode == SYS)
               == GotOp(ParsedOperand(KindOf(i.op2, LegalModes(i.opcode).1), line), rest)
  {
    hide OnLine, OperandKinds, LegalModes, ReadOperand;
    var k2 := OperandKinds(i.opcode, i.op2, LegalModes(i.opcode).1);
    OnLineConcat([Comma], k2, line);
    OneOnLine(Comma, line);
    OperandReads(i.opcode, i.op2, LegalModes(i.opcode).1, line, rest);
    assert (OnLine([Comma], line) + OnLine(k2, line)) + rest == [Token(Comma, line)] + (OnLine(k2, line) + rest);
    AdvanceOver(Token(Comma, line), OnLine(k2, line) + rest);
  }

  lemma ReadsOne(ts: seq<Token>, op: Opcode, line: nat, p1: ParsedOperand, rest: seq<Token>)
    requires Terminated(ts) && !AtLineEnd(ts)
    requires ReadOperand(ts, op == SYS) == GotOp(p1, rest) && rest[0].kind != Comma
    ensures ReadInstruction(ts, op, line) == GotItem(InstrItem(line, op, [p1]), rest)
  {
    hide ReadOperand;
  }

  lemma ReadsTwo(ts: seq<Token>, op: Opcode, line: nat, p1: ParsedOperand, mid: seq<Token>, p2: ParsedOperand,
                 rest: seq<Token>)
    requires Terminated(ts) && !AtLineEnd(ts)
    requires ReadOperand(ts, op == SYS) == GotOp(p1, mid) && mid[0].kind == Comma
    requires ReadOperand(Advance(mid), op == SYS) == GotOp(p2, rest)
    ensures ReadInstruction(ts, op, line) == GotItem(InstrItem(line, op, [p1, p2]), rest)
  {
    hide ReadOperand;
  }

  lemma FirstReads(i: Instruction, line: nat, rest: seq<Token>)
    requires WellFormed(i) && i.op1.mode != Absent && Terminated(rest)
    ensures var mask := LegalModes(i.opcode).0;
            var ts := OnLine(OperandsKinds(i), line) + rest;
            var mid := OnLine(SecondKinds(i), line) + rest;
            && Terminated(ts) && Terminated(mid)
            && ts[0].kind !in {Newline, Eof, Colon, Comma}
            && ReadOperand(ts, i.opcode == SYS) == GotOp(ParsedOperand(KindOf(i.op1, mask), line), mid)
  {
    hide OnLine, OperandKinds, LegalModes, ReadOperand, SecondKinds, KindOf;
    var mask := LegalModes(i.opcode).0;
    var k1 := OperandKinds(i.opcode, i.op1, mask);
    var mid := OnLine(SecondKinds(i), line) + rest;
    OnLineConcat(k1, SecondKinds(i), line);
    assert (OnLine(k1, line) + OnLine(SecondKinds(i), line)) + rest == OnLine(k1, line) + mid;
    FirstOperandToken(i.opcode, i.op1, mask, line, mid);
    OperandReads(i.opcode, i.op1, mask, line, mid);
  }

  /** A printed instruction's operands read back. */
  lemma OperandsRead(i: Instruction, line: nat, rest: seq<Token>)
    requires WellFormed(i) && Terminated(rest) && rest[0].kind == Newline
    ensures var ts := OnLine(OperandsKinds(i), line) + rest;
            && Terminated(ts) && ts[0].kind != Colon
            && ReadInstruction(ts, i.opcode, line) == GotItem(InstrItem(line, i.opcode, OperandsOf(i, line)), rest)
  {
    hide WellFormed, OperandKinds, LegalModes, ReadOperand, ReadInstruction, KindOf, OnLine;
    var ts := OnLine(OperandsKinds(i), line) + rest;
    if i.op1.mode == Absent {
      NoOperandsRead(i.opcode, line, rest);
    } else {
      FirstReads(i, line, rest);
      var p1 := ParsedOperand(KindOf(i.op1, LegalModes(i.opcode).0), line);
      var mid := OnLine(SecondKinds(i), line) + rest;
      if i.op2.mode == Absent {
        NoTokens(line, rest);
        ReadsOne(ts, i.opcode, line, p1, rest);
        assert [p1] + [] == [p1];
      } else {
        SecondReads(i, line, rest);
        var p2 := ParsedOperand(KindOf(i.op2, LegalModes(i.opcode).1), line);
        ReadsTwo(ts, i.opcode, line, p1, mid, p2, rest);
        assert [p1] + [p2] == [p1, p2];
      }
    }
  }

  lemma NoTokens(line: nat, rest: seq<Token>)
    ensures OnLine([], line) + rest == rest
  {
    assert OnLine([], line) == [];
    hide OnLine;
  }

  lemma NoOperandsRead(op: Opcode, line: nat, rest: seq<Token>)
    requires Terminated(rest) && rest[0].kind == Newline
    ensures OnLine([], line) + rest == rest
    ensures ReadInstruction(rest, op, line) == GotItem(InstrItem(line, op, []), rest)
  {
    hide ReadOperand;
    NoTokens(line, rest);
  }

  // ---- whole lines ----

  function WithItems(items: seq<Item>, r: Parse): Parse {
    match r
    case Parsed(more) => Parsed(items + more)
    case ParseError(_, _) => r
  }

  /** After its statement, a line ends and the next begins. */
  lemma LineEnds(rest: seq<Token>, line: nat)
    requires Terminated(rest)
    ensures Terminated([Token(Newline, line)] + rest)
    ensures Items([Token(Newline, line)] + rest, AfterStatement) == Items(rest, LineStart)
    ensures Items([Token(Newline, line)] + rest, LineStart) == Items(rest, LineStart)
  {
    AdvanceOver(Token(Newline, line), rest);
  }

  /** A line whose tokens read as one statement contributes that item. */
  lemma StatementLine(ts: seq<Token>, item: Item, rest: seq<Token>, line: nat)
    requires Terminated(ts) && Terminated(rest)
    requires !AtLineEnd(ts) && !StartsLabel(ts)
    requires ReadStatement(ts) == GotItem(item, [Token(Newline, line)] + rest)
    ensures Items(ts, LineStart) == WithItems([item], Items(rest, LineStart))
  {
    hide ReadStatement;
    LineEnds(rest, line);
    assert Next(ts, LineStart) == Read(item, [Token(Newline, line)] + rest, AfterStatement);
    hide Next;
  }

  lemma InstructionLine(i: Instruction, line: nat, rest: seq<Token>)
    requires WellFormed(i) && Terminated(rest)
    ensures var ts := OnLine(InstructionKinds(i), line) + ([Token(Newline, line)] + rest);
            && Terminated(ts)
            && Items(ts, LineStart)
               == WithItems([InstrItem(line, i.opcode, OperandsOf(i, line))], Items(rest, LineStart))
  {
    hide WellFormed, OperandsKinds, LegalModes, ReadInstruction, OperandsOf, OnLine, LookupMnemonic, MnemonicFor, Items;
    var name := Ident(MnemonicFor(i.opcode));
    var end := [Token(Newline, line)] + rest;
    var ts := OnLine(InstructionKinds(i), line) + end;
    var t1 := OnLine(OperandsKinds(i), line) + end;
    OnLineConcat([name], OperandsKinds(i), line);
    OneOnLine(name, line);
    assert ts == [Token(name, line)] + t1;
    OperandsRead(i, line, end);
    AdvanceOver(Token(name, line), t1);
    MnemonicLooksUp(i.opcode);
    StatementLine(ts, InstrItem(line, i.opcode, OperandsOf(i, line)), rest, line);
  }

  lemma NamesDiffer()
    ensures IdentEquals("org", "org") && IdentEquals("data", "data") && IdentEquals("byte", "byte")
    ensures !IdentEquals("data", "org")
    ensures !IdentEquals("byte", "org") && !IdentEquals("byte", "data")
    ensures !IdentEquals("byte", "string") && !IdentEquals("byte", "word")
  {
    KeysSeparate();
    hide IdentEquals;
    SameWordEquals();
  }

  lemma NumberedLine(name: string, v: int, item: Item, line: nat, rest: seq<Token>)
    requires Terminated(rest)
    requires (name == "org" && item == OrgItem(line, v)) || (name == "byte" && item == ByteItem(line, v))
    ensures var ts := OnLine([Directive(name), Num(v)], line) + ([Token(Newline, line)] + rest);
            && Terminated(ts)
            && Items(ts, LineStart) == WithItems([item], Items(rest, LineStart))
  {
    hide IdentEquals, OnLine, Items;
    var end := [Token(Newline, line)] + rest;
    var ts := OnLine([Directive(name), Num(v)], line) + end;
    var t1 := [Token(Num(v), line)] + end;
    OnLineConcat([Directive(name)], [Num(v)], line);
    OneOnLine(Directive(name), line);
    OneOnLine(Num(v), line);
    assert [Directive(name)] + [Num(v)] == [Directive(name), Num(v)];
    assert ts == [Token(Directive(name), line)] + t1;
    LineEnds(rest, line);
    AdvanceOver(Token(Num(v), line), end);
    AdvanceOver(Token(Directive(name), line), t1);
    NamesDiffer();
    StatementLine(ts, item, rest, line);
  }

  lemma DataLineReads(line: nat, rest: seq<Token>)
    requires Terminated(rest)
    ensures var ts := OnLine([Directive("data")], line) + ([Token(Newline, line)] + rest);
            && Terminated(ts)
            && Items(ts, LineStart) == WithItems([DataItem(line)], Items(rest, LineStart))
  {
    hide IdentEquals, OnLine, Items;
    var end := [Token(Newline, line)] + rest;
    var ts := OnLine([Directive("data")], line) + end;
    OneOnLine(Directive("data"), line);
    LineEnds(rest, line);
    AdvanceOver(Token(Directive("data"), line), end);
    NamesDiffer();
    StatementLine(ts, DataItem(line), rest, line);
  }

  /** The tokens of a printed line read back as its item, and then the rest reads on. */
  lemma LineReads(l: Line, line: nat, rest: seq<Token>)
    requires Printable(l) && Terminated(rest)
    ensures Terminated(LineTokens(l, line) + rest)
    ensures Items(LineTokens(l, line) + rest, LineStart) == WithItems(LineItems(l, line), Items(rest, LineStart))
  {
    hide OnLine, Items, WellFormed, InstructionKinds, OperandsOf;
    var end := [Token(Newline, line)] + rest;
    assert LineTokens(l, line) + rest == OnLine(BodyKinds(l), line) + end;
    match l {
      case CommentLine(_) | BlankLine =>
        NoTokens(line, end);
        LineEnds(rest, line);
        if Items(rest, LineStart).Parsed? {
          assert [] + Items(rest, LineStart).items == Items(rest, LineStart).items;
        }
      case OrgLine(a) => NumberedLine("org", a, OrgItem(line, a), line, rest);
      case DataLine => DataLineReads(line, rest);
      case ByteLine(b) => NumberedLine("byte", b, ByteItem(line, b), line, rest);
      case InstrLine(i) => InstructionLine(i, line, rest);
    }
  }

  // ---- whole texts ----

  predicate AllPrintable(ls: seq<Line>) {
    forall i | 0 <= i < |ls| :: Printable(ls[i])
  }

  /** The items of consecutive lines, the first on line `line`. */
  function AllItems(ls: seq<Line>, line: nat): seq<Item> {
    if ls == [] then [] else LineItems(ls[0], line) + AllItems(ls[1..], line + 1)
  }

  /** A printed text lexes, and reads back as the items of its lines. */
  lemma {:induction false} TextReads(ls: seq<Line>, line: nat)
    requires AllPrintable(ls)
    ensures Lex(PrintAll(ls), line).Tokens?
    ensures Items(Lex(PrintAll(ls), line).tokens, LineStart) == Parsed(AllItems(ls, line))
    decreases |ls|
  {
    hide Lex, PrintLine, LineTokens, LineItems, Printable, Items;
    if ls == [] {
      EmptyText(line);
    } else {
      assert Printable(ls[0]);
      assert AllPrintable(ls[1..]) by {
        forall i | 0 <= i < |ls[1..]| ensures Printable(ls[1..][i]) {
          assert ls[1..][i] == ls[i + 1];
        }
      }
      TextReads(ls[1..], line + 1);
      LineLexes(ls[0], PrintAll(ls[1..]), line);
      LineReads(ls[0], line, Lex(PrintAll(ls[1..]), line + 1).tokens);
    }
  }

  lemma EmptyText(line: nat)
    ensures Lex("", line) == Tokens([Token(Eof, line)])
    ensures Terminated([Token(Eof, line)])
    ensures Items([Token(Eof, line)], LineStart) == Parsed([])
  {
  }
}
