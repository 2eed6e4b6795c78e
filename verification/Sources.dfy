/** Every program has a source: labels, instructions and directives written out one to a line
    lex and parse back to exactly themselves (src/assembler/lexer.c, src/assembler/parser.c). */
module Sources {
  import opened Options
  import opened Words
  import opened Isa
  import opened Text
  import opened Lexer
  import opened Syntax
  import opened Disassembler
  import opened Printing
  import opened Lines
  import opened Spelling
  import Layout
  import Assembler

  // ---- what can be written ----

  /** A name that is not read as a register. */
  predicate IsName(name: string) {
    IsWord(name) && ParseRegister(name).None?
  }

  /** An operand with a spelling; after SYS, a system call's name is not a label. */
  predicate Writable(k: OperandKind, sys: bool) {
    && (k.RegisterOp? || k.IndirectOp? ==> k.index <= 9999)
    && (k.LabelOp? || k.MemLabelOp? ==> IsName(k.name))
    && (k.LabelOp? && sys ==> SyscallCode(k.name).None?)
  }

  predicate Bracketed(k: OperandKind) {
    k.IndirectOp? || k.MemNumberOp? || k.MemLabelOp?
  }

  /** What stands alone, or inside the brackets. */
  function Core(k: OperandKind): string {
    if k.RegisterOp? || k.IndirectOp? then RegisterName(k.index)
    else if k.NumberOp? || k.MemNumberOp? then Signed10(k.value).Text()
    else k.name
  }

  function OperandWritten(k: OperandKind): string {
    if Bracketed(k) then "[" + Core(k) + "]" else Core(k)
  }

  function Signed10(v: int): Number {
    if v < 0 then Number(true, "", Decimal(-v)) else Number(false, "", Decimal(v))
  }

  lemma Signed10Value(v: int)
    ensures Signed10(v).Valid() && Signed10(v).Value() == v
  {
    hide Decimal, NumeralValue;
    DecimalReads(if v < 0 then -v else v);
  }

  /** The token of what stands alone, or inside the brackets. */
  function CoreToken(k: OperandKind): TokenKind {
    if k.RegisterOp? || k.IndirectOp? then Ident(RegisterName(k.index))
    else if k.NumberOp? || k.MemNumberOp? then Num(k.value)
    else Ident(k.name)
  }

  function OperandTokens(k: OperandKind): seq<TokenKind> {
    if Bracketed(k) then [LBracket, CoreToken(k), RBracket] else [CoreToken(k)]
  }

  // ---- registers of any index ----

  lemma {:induction false} ScanAppend(w: string, c: char, v: nat, x: nat)
    requires ScanIndex(w, v) == (x, "") && IsDecimal(c) && x <= 999
    requires w != "" ==> IsDecimal(w[0])
    ensures ScanIndex(w + [c], v) == (10 * x + (c as int - '0' as int), "")
    decreases |w|
  {
    var d := 10 * x + (c as int - '0' as int);
    if w == "" {
      assert w + [c] == [c] && [c][1..] == "";
    } else {
      assert (w + [c])[1..] == w[1..] + [c];
      var y := v * 10 + (w[0] as int - '0' as int);
      if y > 999 {
        assert false;
      } else {
        ScanRest(w, v);
        ScanAppend(w[1..], c, y, x);
      }
    }
  }

  lemma ScanRest(w: string, v: nat)
    requires w != "" && IsDecimal(w[0]) && ScanIndex(w, v).1 == ""
    requires v * 10 + (w[0] as int - '0' as int) <= 999
    ensures w[1..] != "" ==> IsDecimal(w[1])
  {
  }

  /** `Rn` is a register for every n up to 9999. */
  lemma {:induction false} IndexScans(n: nat)
    requires n <= 9999
    ensures ScanIndex(Decimal(n), 0) == (n, "")
  {
    if n < 10 {
      assert Decimal(n) == [DigitChar(n)] && [DigitChar(n)][1..] == "";
    } else {
      IndexScans(n / 10);
      DecimalDigits(n / 10);
      ScanAppend(Decimal(n / 10), DigitChar(n % 10), 0, n / 10);
    }
  }

  lemma RegisterIsName(n: nat)
    requires n <= 9999
    ensures IsWord(RegisterName(n)) && ParseRegister(RegisterName(n)) == Some(n)
  {
    hide ScanIndex, NumeralValue, Decimal;
    IndexScans(n);
    DecimalDigits(n);
    var w := RegisterName(n);
    assert w[0] == 'R' && w[1] == Decimal(n)[0] && w[1..] == Decimal(n);
    forall i | 0 <= i < |w| ensures In(w[i], IdentChar) {
      if i > 0 {
        assert w[i] == Decimal(n)[i - 1];
      }
    }
  }

  /** A scan that has stopped is not changed by a further digit. */
  lemma {:induction false} ScanStopped(w: string, c: char, v: nat)
    requires ScanIndex(w, v).0 > 999 && v <= 999
    ensures ScanIndex(w + [c], v) == (ScanIndex(w, v).0, ScanIndex(w, v).1 + [c])
    decreases |w|
  {
    assert w != "" && IsDecimal(w[0]);
    assert (w + [c])[1..] == w[1..] + [c];
    var y := v * 10 + (w[0] as int - '0' as int);
    if y <= 999 {
      ScanStopped(w[1..], c, y);
    }
  }

  lemma {:induction false} LongIndexStops(n: nat)
    requires n >= 1000
    ensures ScanIndex(Decimal(n), 0).0 > 999
    ensures ScanIndex(Decimal(n), 0).1 == "" <==> n <= 9999
  {
    if n <= 9999 {
      IndexScans(n);
    } else {
      LongIndexStops(n / 10);
      ScanStopped(Decimal(n / 10), DigitChar(n % 10), 0);
    }
  }

  /** From `R10000` on, the name is no register's. */
  lemma LongRegisterIsLabel(n: nat)
    requires n >= 10000
    ensures ParseRegister(RegisterName(n)) == None
  {
    hide ScanIndex, Decimal;
    LongIndexStops(n);
    assert RegisterName(n)[1..] == Decimal(n);
  }

  // ---- operands ----

  lemma CoreLexes(k: OperandKind, sys: bool, s: string, line: nat)
    requires Writable(k, sys) && Follows(s)
    ensures LexesTo(Core(k), [CoreToken(k)], s, line)
  {
    hide LexesTo, IsWord, ParseRegister, RegisterName, SyscallCode;
    if k.RegisterOp? || k.IndirectOp? {
      RegisterIsName(k.index);
      IdentLexes(RegisterName(k.index), s, line);
    } else if k.NumberOp? || k.MemNumberOp? {
      Signed10Value(k.value);
      NumberLexes(Signed10(k.value), s, line);
    } else {
      IdentLexes(k.name, s, line);
    }
  }

  lemma OperandIsLexed(k: OperandKind, sys: bool, s: string, line: nat)
    requires Writable(k, sys) && Follows(s)
    ensures LexesTo(OperandWritten(k), OperandTokens(k), s, line)
  {
    hide LexesTo, Core, CoreToken, Writable, Follows;
    if Bracketed(k) {
      ClosedFollows(s);
      CoreLexes(k, sys, "]" + s, line);
      BracketLexes(Core(k), CoreToken(k), s, line);
    } else {
      CoreLexes(k, sys, s, line);
    }
  }

  lemma ClosedFollows(s: string)
    ensures Follows("]" + s) && Follows("," + s) && Follows(" " + s) && Follows("\n" + s) && Follows(":" + s)
  {
  }

  lemma BareIsRead(k: OperandKind, sys: bool, ts: seq<Token>, rest: seq<Token>)
    requires Writable(k, sys) && !Bracketed(k) && Terminated(ts)
    requires ts[0].kind == CoreToken(k) && Advance(ts) == rest
    ensures ReadOperand(ts, sys) == GotOp(ParsedOperand(k, ts[0].line), rest)
  {
    hide ParseRegister, RegisterName, SyscallCode, IsWord, ReadBracketed, Terminated, Advance;
    if k.RegisterOp? {
      RegisterIsName(k.index);
    }
  }

  lemma BracketIsRead(k: OperandKind, sys: bool, ts: seq<Token>, rest: seq<Token>)
    requires Writable(k, sys) && Bracketed(k) && Terminated(ts)
    requires ts[0].kind == LBracket && Advance(ts)[0].kind == CoreToken(k)
    requires Advance(Advance(ts))[0].kind == RBracket && Advance(Advance(Advance(ts))) == rest
    ensures ReadOperand(ts, sys) == GotOp(ParsedOperand(k, ts[0].line), rest)
  {
    hide ParseRegister, RegisterName, SyscallCode, IsWord, Terminated, Advance;
    if k.IndirectOp? {
      RegisterIsName(k.index);
    }
  }

  lemma OperandIsRead(k: OperandKind, sys: bool, line: nat, rest: seq<Token>)
    requires Writable(k, sys) && Terminated(rest)
    ensures var ts := OnLine(OperandTokens(k), line) + rest;
            && Terminated(ts) && ts[0].kind !in {Newline, Eof, Colon, Comma}
            && ReadOperand(ts, sys) == GotOp(ParsedOperand(k, line), rest)
  {
    hide OnLine, ReadOperand, Writable, RegisterName, Terminated, Advance;
    var t := CoreToken(k);
    var ts := OnLine(OperandTokens(k), line) + rest;
    if Bracketed(k) {
      ThreeTokens(LBracket, t, RBracket, line, rest);
      var r1 := [Token(RBracket, line)] + rest;
      var r2 := [Token(t, line)] + r1;
      AdvanceOver(Token(RBracket, line), rest);
      AdvanceOver(Token(t, line), r1);
      AdvanceOver(Token(LBracket, line), r2);
      BracketIsRead(k, sys, ts, rest);
    } else {
      Lines.OneToken(t, line, rest);
      AdvanceOver(Token(t, line), rest);
      BareIsRead(k, sys, ts, rest);
    }
  }

  // ---- items ----

  function OperandsWritten(ops: seq<ParsedOperand>): string
    requires |ops| <= 2
  {
    if |ops| == 0 then ""
    else if |ops| == 1 then " " + OperandWritten(ops[0].kind)
    else " " + (OperandWritten(ops[0].kind) + ("," + (" " + OperandWritten(ops[1].kind))))
  }

  function OperandsTokens(ops: seq<ParsedOperand>): seq<TokenKind>
    requires |ops| <= 2
  {
    if |ops| == 0 then []
    else if |ops| == 1 then OperandTokens(ops[0].kind)
    else OperandTokens(ops[0].kind) + ([Comma] + OperandTokens(ops[1].kind))
  }

  /** Bytes of a string as hexadecimal escapes. */
  function Escapes(bytes: seq<byte>): (ts: seq<string>)
    ensures |ts| == |bytes| && forall i | 0 <= i < |bytes| :: ts[i] == "\\x" + Hex(bytes[i], 2)
  {
    if bytes == [] then [] else ["\\x" + Hex(bytes[0], 2)] + Escapes(bytes[1..])
  }

  /** An item with a spelling, all of it on line `line`. */
  predicate Readable(item: Item, line: nat) {
    && item.line == line
    && match item
       case LabelItem(_, name) => IsWord(name)
       case InstrItem(_, op, operands) =>
         |operands| <= 2
         && forall i | 0 <= i < |operands| :: operands[i].line == line && Writable(operands[i].kind, op == SYS)
       case WordItem(_, operand) =>
         operand.line == line && (operand.kind.NumberOp? || operand.kind.LabelOp?) && Writable(operand.kind, false)
       case _ => true
  }

  function Written(item: Item): string
    requires Readable(item, item.line)
  {
    match item
    case LabelItem(_, name) => name + ":"
    case InstrItem(_, op, operands) => MnemonicFor(op) + OperandsWritten(operands)
    case OrgItem(_, v) => ("." + "org") + (" " + Signed10(v).Text())
    case DataItem(_) => "." + "data"
    case StringItem(_, bytes) => ("." + "string") + (" " + ("\"" + Joined(Escapes(bytes)) + "\""))
    case WordItem(_, operand) => ("." + "word") + (" " + OperandWritten(operand.kind))
    case ByteItem(_, v) => ("." + "byte") + (" " + Signed10(v).Text())
  }

  function WrittenTokens(item: Item): seq<TokenKind>
    requires Readable(item, item.line)
  {
    match item
    case LabelItem(_, name) => [Ident(name)] + [Colon]
    case InstrItem(_, op, operands) => [Ident(MnemonicFor(op))] + OperandsTokens(operands)
    case OrgItem(_, v) => [Directive("org")] + [Num(v)]
    case DataItem(_) => [Directive("data")]
    case StringItem(_, bytes) => [Directive("string")] + [Str(bytes)]
    case WordItem(_, operand) => [Directive("word")] + OperandTokens(operand.kind)
    case ByteItem(_, v) => [Directive("byte")] + [Num(v)]
  }

  lemma SecondIsLexed(k: OperandKind, sys: bool, s: string, line: nat)
    requires Writable(k, sys) && Follows(s)
    ensures LexesTo("," + (" " + OperandWritten(k)), [Comma] + OperandTokens(k), s, line)
  {
    hide LexesTo, OperandWritten, OperandTokens, Writable, Follows;
    OperandIsLexed(k, sys, s, line);
    AfterSpace(OperandWritten(k), OperandTokens(k), s, line);
    PunctuationLexes(',', (" " + OperandWritten(k)) + s, line);
    LexesConcat(",", [Comma], " " + OperandWritten(k), OperandTokens(k), s, line);
  }

  lemma OperandsAreLexed(ops: seq<ParsedOperand>, sys: bool, s: string, line: nat)
    requires |ops| <= 2 && Follows(s)
    requires forall i | 0 <= i < |ops| :: Writable(ops[i].kind, sys)
    ensures LexesTo(OperandsWritten(ops), OperandsTokens(ops), s, line)
    ensures Follows(OperandsWritten(ops) + s)
  {
    hide LexesTo, OperandWritten, OperandTokens, Writable;
    if |ops| == 0 {
      NothingLexes(s, line);
      assert "" + s == s;
    } else if |ops| == 1 {
      OperandIsLexed(ops[0].kind, sys, s, line);
      AfterSpace(OperandWritten(ops[0].kind), OperandTokens(ops[0].kind), s, line);
    } else {
      var rest := "," + (" " + OperandWritten(ops[1].kind));
      SecondIsLexed(ops[1].kind, sys, s, line);
      OperandIsLexed(ops[0].kind, sys, rest + s, line);
      LexesConcat(OperandWritten(ops[0].kind), OperandTokens(ops[0].kind),
                  rest, [Comma] + OperandTokens(ops[1].kind), s, line);
      AfterSpace(OperandWritten(ops[0].kind) + rest, OperandsTokens(ops), s, line);
    }
  }

  lemma DirectiveWithArgument(name: string, text: string, kinds: seq<TokenKind>, s: string, line: nat)
    requires name != "" && AllIn(name, Alpha) && LexesTo(text, kinds, s, line)
    ensures LexesTo(("." + name) + (" " + text), [Directive(name)] + kinds, s, line)
  {
    hide LexesTo, Follows;
    AfterSpace(text, kinds, s, line);
    ClosedFollows(text + s);
    assert (" " + text) + s == " " + (text + s);
    DirectiveLexes(name, (" " + text) + s, line);
    LexesConcat("." + name, [Directive(name)], " " + text, kinds, s, line);
  }

  lemma NumberIsLexed(v: int, s: string, line: nat)
    requires Follows(s)
    ensures LexesTo(Signed10(v).Text(), [Num(v)], s, line)
  {
    hide LexesTo, Follows;
    Signed10Value(v);
    NumberLexes(Signed10(v), s, line);
  }

  lemma EscapesSpell(bytes: seq<byte>)
    ensures AllSpell(Escapes(bytes), bytes)
  {
    hide Hex, Spells;
    forall i | 0 <= i < |bytes| ensures Spells(Escapes(bytes)[i], bytes[i]) {
      EscapeSpells(bytes[i]);
    }
  }

  lemma EscapeSpells(b: byte)
    ensures Spells("\\x" + Hex(b, 2), b)
  {
    var h := Hex(b, 2);
    assert h == [DigitChar(b / 16), DigitChar(b % 16)] by {
      assert Hex(b / 16, 1) == Hex(b / 16 / 16, 0) + [DigitChar(b / 16)];
    }
    DigitCharValue(b / 16);
    DigitCharValue(b % 16);
    hide DigitChar, DigitValue, Hex;
    var t := "\\x" + h;
    assert t[..2] == "\\x" && t[2] == h[0] && t[3] == h[1];
  }

  lemma ItemIsLexed(item: Item, s: string)
    requires Readable(item, item.line) && Follows(s)
    ensures LexesTo(Written(item), WrittenTokens(item), s, item.line)
  {
    hide LexesTo, Follows, IsWord, OperandWritten, OperandTokens, Writable, Joined, MnemonicFor, Signed10,
      OperandsWritten, OperandsTokens;
    var line := item.line;
    match item {
      case LabelItem(_, name) =>
        PunctuationLexes(':', s, line);
        ClosedFollows(s);
        IdentLexes(name, ":" + s, line);
        LexesConcat(name, [Ident(name)], ":", [Colon], s, line);
      case InstrItem(_, op, operands) =>
        OperandsAreLexed(operands, op == SYS, s, line);
        MnemonicIsWord(op);
        IdentLexes(MnemonicFor(op), OperandsWritten(operands) + s, line);
        LexesConcat(MnemonicFor(op), [Ident(MnemonicFor(op))],
                    OperandsWritten(operands), OperandsTokens(operands), s, line);
      case OrgItem(_, v) =>
        NumberIsLexed(v, s, line);
        DirectiveWithArgument("org", Signed10(v).Text(), [Num(v)], s, line);
      case DataItem(_) => DirectiveLexes("data", s, line);
      case StringItem(_, bytes) =>
        EscapesSpell(bytes);
        StringLexes(Escapes(bytes), bytes, s, line);
        DirectiveWithArgument("string", "\"" + Joined(Escapes(bytes)) + "\"", [Str(bytes)], s, line);
      case WordItem(_, operand) =>
        OperandIsLexed(operand.kind, false, s, line);
        DirectiveWithArgument("word", OperandWritten(operand.kind), OperandTokens(operand.kind), s, line);
      case ByteItem(_, v) =>
        NumberIsLexed(v, s, line);
        DirectiveWithArgument("byte", Signed10(v).Text(), [Num(v)], s, line);
    }
  }

  // ---- reading the tokens ----

  /** A label on a line of its own. */
  lemma LabelLine(name: string, line: nat, rest: seq<Token>)
    requires Terminated(rest)
    ensures var ts := OnLine([Ident(name)] + [Colon], line) + ([Token(Newline, line)] + rest);
            && Terminated(ts)
            && Items(ts, LineStart) == WithItems([LabelItem(line, name)], Items(rest, LineStart))
  {
    hide OnLine, Items;
    var end := [Token(Newline, line)] + rest;
    OnLineConcat([Ident(name)], [Colon], line);
    OneOnLine(Ident(name), line);
    OneOnLine(Colon, line);
    var t1 := [Token(Colon, line)] + end;
    var ts := [Token(Ident(name), line)] + t1;
    assert OnLine([Ident(name)] + [Colon], line) + end == ts;
    LineEnds(rest, line);
    AdvanceOver(Token(Colon, line), end);
    AdvanceOver(Token(Ident(name), line), t1);
    LabelItems(ts, end);
  }

  lemma LabelItems(ts: seq<Token>, end: seq<Token>)
    requires Terminated(ts) && Terminated(end)
    requires StartsLabel(ts) && Advance(Advance(ts)) == end && end[0].kind == Newline
    ensures Items(ts, LineStart)
         == WithItems([LabelItem(ts[0].line, ts[0].kind.text)], Items(end, AfterStatement))
  {
    hide ReadStatement;
    assert Next(ts, LineStart) == Read(LabelItem(ts[0].line, ts[0].kind.text), end, AfterLabel);
    assert Next(end, AfterLabel) == Moved(end, AfterStatement);
    hide Next;
  }

  lemma OperandsAreRead(op: Opcode, ops: seq<ParsedOperand>, line: nat, rest: seq<Token>)
    requires |ops| <= 2 && Terminated(rest) && rest[0].kind == Newline
    requires forall i | 0 <= i < |ops| :: ops[i].line == line && Writable(ops[i].kind, op == SYS)
    ensures var ts := OnLine(OperandsTokens(ops), line) + rest;
            && Terminated(ts) && ts[0].kind != Colon
            && ReadInstruction(ts, op, line) == GotItem(InstrItem(line, op, ops), rest)
  {
    hide OperandTokens, ReadOperand, ReadInstruction, OnLine, Writable, Advance;
    var sys := op == SYS;
    if |ops| == 0 {
      NoOperandsRead(op, line, rest);
      assert ops == [];
    } else if |ops| == 1 {
      OperandIsRead(ops[0].kind, sys, line, rest);
      ReadsOne(OnLine(OperandTokens(ops[0].kind), line) + rest, op, line, ops[0], rest);
      assert ops == [ops[0]];
    } else {
      var k1, k2 := OperandTokens(ops[0].kind), OperandTokens(ops[1].kind);
      var tail := OnLine(k2, line) + rest;
      var mid := [Token(Comma, line)] + tail;
      OperandIsRead(ops[1].kind, sys, line, rest);
      AdvanceOver(Token(Comma, line), tail);
      OperandIsRead(ops[0].kind, sys, line, mid);
      TwoOperandTokens(k1, k2, line, rest);
      ReadsTwo(OnLine(k1, line) + mid, op, line, ops[0], mid, ops[1], rest);
      assert ops == [ops[0], ops[1]];
    }
  }

  lemma TwoOperandTokens(k1: seq<TokenKind>, k2: seq<TokenKind>, line: nat, rest: seq<Token>)
    ensures OnLine(k1 + ([Comma] + k2), line) + rest
         == OnLine(k1, line) + ([Token(Comma, line)] + (OnLine(k2, line) + rest))
  {
    OnLineConcat(k1, [Comma] + k2, line);
    OnLineConcat([Comma], k2, line);
    OneOnLine(Comma, line);
    hide OnLine;
  }

  lemma InstructionItem(op: Opcode, ops: seq<ParsedOperand>, line: nat, rest: seq<Token>)
    requires |ops| <= 2 && Terminated(rest)
    requires forall i | 0 <= i < |ops| :: ops[i].line == line && Writable(ops[i].kind, op == SYS)
    ensures var ts := OnLine([Ident(MnemonicFor(op))] + OperandsTokens(ops), line) + ([Token(Newline, line)] + rest);
            && Terminated(ts)
            && Items(ts, LineStart) == WithItems([InstrItem(line, op, ops)], Items(rest, LineStart))
  {
    hide OperandsTokens, ReadInstruction, OnLine, LookupMnemonic, MnemonicFor, Items, Writable;
    var name := Ident(MnemonicFor(op));
    var end := [Token(Newline, line)] + rest;
    var t1 := OnLine(OperandsTokens(ops), line) + end;
    var ts := OnLine([name] + OperandsTokens(ops), line) + end;
    OnLineConcat([name], OperandsTokens(ops), line);
    OneOnLine(name, line);
    assert ts == [Token(name, line)] + t1;
    OperandsAreRead(op, ops, line, end);
    AdvanceOver(Token(name, line), t1);
    MnemonicLooksUp(op);
    StatementLine(ts, InstrItem(line, op, ops), rest, line);
  }

  lemma DirectiveNames()
    ensures IdentEquals("org", "org") && IdentEquals("data", "data") && IdentEquals("string", "string")
    ensures IdentEquals("word", "word") && IdentEquals("byte", "byte")
    ensures !IdentEquals("data", "org") && !IdentEquals("string", "org") && !IdentEquals("string", "data")
    ensures !IdentEquals("word", "org") && !IdentEquals("word", "data") && !IdentEquals("word", "string")
    ensures !IdentEquals("byte", "org") && !IdentEquals("byte", "data")
    ensures !IdentEquals("byte", "string") && !IdentEquals("byte", "word")
  {
    KeysSeparate();
    hide IdentEquals;
    SameWordEquals();
  }

  /** A directive whose argument's tokens are read as the item. */
  lemma DirectiveLine(name: string, kinds: seq<TokenKind>, item: Item, line: nat, rest: seq<Token>)
    requires Terminated(rest)
    requires var end := [Token(Newline, line)] + rest;
             var t1 := OnLine(kinds, line) + end;
             Terminated(t1) && t1[0].kind != Colon && ReadDirective(t1, name, line) == GotItem(item, end)
    ensures var ts := OnLine([Directive(name)] + kinds, line) + ([Token(Newline, line)] + rest);
            && Terminated(ts)
            && Items(ts, LineStart) == WithItems([item], Items(rest, LineStart))
  {
    hide ReadDirective, OnLine, Items;
    var end := [Token(Newline, line)] + rest;
    var t1 := OnLine(kinds, line) + end;
    OnLineConcat([Directive(name)], kinds, line);
    OneOnLine(Directive(name), line);
    var ts := OnLine([Directive(name)] + kinds, line) + end;
    assert ts == [Token(Directive(name), line)] + t1;
    AdvanceOver(Token(Directive(name), line), t1);
    StatementLine(ts, item, rest, line);
  }

  /** One argument token of a directive that takes exactly one. */
  lemma ArgumentToken(k: TokenKind, line: nat, end: seq<Token>)
    requires Terminated(end)
    ensures var t1 := OnLine([k], line) + end;
            Terminated(t1) && t1[0] == Token(k, line) && Advance(t1) == end
  {
    hide OnLine;
    Lines.OneToken(k, line, end);
    AdvanceOver(Token(k, line), end);
  }

  lemma NumberReads(v: int, line: nat, end: seq<Token>)
    requires Terminated(end)
    ensures var t1 := OnLine([Num(v)], line) + end;
            && Terminated(t1) && ReadDirective(t1, "org", line) == GotItem(OrgItem(line, v), end)
            && ReadDirective(t1, "byte", line) == GotItem(ByteItem(line, v), end)
  {
    hide IdentEquals, OnLine, Advance, Terminated;
    ArgumentToken(Num(v), line, end);
    DirectiveNames();
  }

  lemma StringReads(bytes: seq<byte>, line: nat, end: seq<Token>)
    requires Terminated(end)
    ensures var t1 := OnLine([Str(bytes)], line) + end;
            Terminated(t1) && ReadDirective(t1, "string", line) == GotItem(StringItem(line, bytes), end)
  {
    hide IdentEquals, OnLine, Advance, Terminated;
    ArgumentToken(Str(bytes), line, end);
    DirectiveNames();
  }

  lemma WordReads(operand: ParsedOperand, line: nat, end: seq<Token>)
    requires Terminated(end) && operand.line == line && Writable(operand.kind, false)
    requires operand.kind.NumberOp? || operand.kind.LabelOp?
    ensures var t1 := OnLine(OperandTokens(operand.kind), line) + end;
            && Terminated(t1) && t1[0].kind != Colon
            && ReadDirective(t1, "word", line) == GotItem(WordItem(line, operand), end)
  {
    hide IdentEquals, OnLine, OperandTokens, ReadOperand, Writable, Advance, Terminated;
    OperandIsRead(operand.kind, false, line, end);
    DirectiveNames();
  }

  lemma DataReads(line: nat, end: seq<Token>)
    requires Terminated(end)
    ensures OnLine([], line) + end == end && ReadDirective(end, "data", line) == GotItem(DataItem(line), end)
  {
    hide IdentEquals;
    NoTokens(line, end);
    DirectiveNames();
  }

  /** The tokens of an item on its own line read back as the item. */
  lemma ItemIsRead(item: Item, rest: seq<Token>)
    requires Readable(item, item.line) && Terminated(rest)
    ensures var ts := OnLine(WrittenTokens(item), item.line) + ([Token(Newline, item.line)] + rest);
            && Terminated(ts)
            && Items(ts, LineStart) == WithItems([item], Items(rest, LineStart))
  {
    hide OnLine, Items, OperandTokens, OperandsTokens, Writable, IsWord, ReadDirective, MnemonicFor;
    var line := item.line;
    var end := [Token(Newline, line)] + rest;
    LineEnds(rest, line);
    match item {
      case LabelItem(_, name) => LabelLine(name, line, rest);
      case InstrItem(_, op, operands) => InstructionItem(op, operands, line, rest);
      case OrgItem(_, v) =>
        NumberReads(v, line, end);
        ArgumentToken(Num(v), line, end);
        DirectiveLine("org", [Num(v)], item, line, rest);
      case DataItem(_) =>
        DataReads(line, end);
        assert [Directive("data")] + [] == [Directive("data")];
        DirectiveLine("data", [], item, line, rest);
      case StringItem(_, bytes) =>
        StringReads(bytes, line, end);
        ArgumentToken(Str(bytes), line, end);
        DirectiveLine("string", [Str(bytes)], item, line, rest);
      case WordItem(_, operand) =>
        WordReads(operand, line, end);
        DirectiveLine("word", OperandTokens(operand.kind), item, line, rest);
      case ByteItem(_, v) =>
        NumberReads(v, line, end);
        ArgumentToken(Num(v), line, end);
        DirectiveLine("byte", [Num(v)], item, line, rest);
    }
  }

  lemma FirstToken(first: TokenKind, tail: seq<TokenKind>, line: nat, end: seq<Token>)
    requires Terminated(end)
    ensures var t1 := OnLine(tail, line) + end;
            && Terminated(t1) && Terminated(OnLine([first] + tail, line) + end)
            && (OnLine([first] + tail, line) + end)[0] == Token(first, line)
            && Advance(OnLine([first] + tail, line) + end) == t1
  {
    hide OnLine, Advance;
    OnLineConcat([first], tail, line);
    OneOnLine(first, line);
    var t1 := OnLine(tail, line) + end;
    assert OnLine([first] + tail, line) + end == [Token(first, line)] + t1;
    AdvanceOver(Token(first, line), t1);
  }

  /** Tokens that read as a statement. */
  predicate StartsStatement(ts: seq<Token>) {
    Terminated(ts) && !AtLineEnd(ts) && !StartsLabel(ts)
  }

  lemma DirectiveStarts(name: string, tail: seq<TokenKind>, line: nat, end: seq<Token>)
    requires Terminated(end)
    ensures StartsStatement(OnLine([Directive(name)] + tail, line) + end)
  {
    hide OnLine, Advance;
    FirstToken(Directive(name), tail, line, end);
  }

  lemma InstructionStarts(op: Opcode, ops: seq<ParsedOperand>, line: nat, end: seq<Token>)
    requires |ops| <= 2 && Terminated(end) && end[0].kind == Newline
    requires forall i | 0 <= i < |ops| :: ops[i].line == line && Writable(ops[i].kind, op == SYS)
    ensures StartsStatement(OnLine([Ident(MnemonicFor(op))] + OperandsTokens(ops), line) + end)
  {
    hide OnLine, Advance, MnemonicFor, OperandsTokens, Writable, ReadInstruction;
    FirstToken(Ident(MnemonicFor(op)), OperandsTokens(ops), line, end);
    OperandsAreRead(op, ops, line, end);
  }

  /** What an item other than a label starts with is not a label. */
  lemma ItemStarts(item: Item, rest: seq<Token>)
    requires Readable(item, item.line) && !item.LabelItem? && Terminated(rest)
    ensures StartsStatement(OnLine(WrittenTokens(item), item.line) + ([Token(Newline, item.line)] + rest))
  {
    hide OnLine, OperandTokens, OperandsTokens, Writable, MnemonicFor, StartsStatement;
    var line := item.line;
    var end := [Token(Newline, line)] + rest;
    match item {
      case InstrItem(_, op, operands) => InstructionStarts(op, operands, line, end);
      case OrgItem(_, v) => DirectiveStarts("org", [Num(v)], line, end);
      case DataItem(_) =>
        DirectiveStarts("data", [], line, end);
        assert [Directive("data")] + [] == [Directive("data")];
      case StringItem(_, bytes) => DirectiveStarts("string", [Str(bytes)], line, end);
      case WordItem(_, operand) => DirectiveStarts("word", OperandTokens(operand.kind), line, end);
      case ByteItem(_, v) => DirectiveStarts("byte", [Num(v)], line, end);
    }
  }

  /** A statement after a label is read as it is at the start of a line. */
  lemma AfterLabelSame(ts: seq<Token>)
    requires Terminated(ts) && !AtLineEnd(ts) && !StartsLabel(ts)
    ensures Items(ts, AfterLabel) == Items(ts, LineStart)
  {
    hide ReadStatement;
    assert Next(ts, AfterLabel) == Next(ts, LineStart);
    hide Next;
  }

  /** A label and a statement on the same line are both read, the label first. */
  lemma LabelBeforeStatement(name: string, item: Item, rest: seq<Token>)
    requires Readable(item, item.line) && !item.LabelItem? && Terminated(rest)
    ensures var line := item.line;
            var ts := OnLine(WrittenTokens(item), line) + ([Token(Newline, line)] + rest);
            && Terminated([Token(Ident(name), line)] + ([Token(Colon, line)] + ts))
            && Items([Token(Ident(name), line)] + ([Token(Colon, line)] + ts), LineStart)
               == WithItems([LabelItem(line, name), item], Items(rest, LineStart))
  {
    hide OnLine, Items, WrittenTokens, Readable, Advance;
    var line := item.line;
    var ts := OnLine(WrittenTokens(item), line) + ([Token(Newline, line)] + rest);
    ItemIsRead(item, rest);
    ItemStarts(item, rest);
    AfterLabelSame(ts);
    AdvanceOver(Token(Colon, line), ts);
    AdvanceOver(Token(Ident(name), line), [Token(Colon, line)] + ts);
    LabelThen([Token(Ident(name), line)] + ([Token(Colon, line)] + ts), ts);
    if Items(rest, LineStart).Parsed? {
      var more := Items(rest, LineStart).items;
      assert [LabelItem(line, name)] + ([item] + more) == [LabelItem(line, name), item] + more;
    }
  }

  lemma LabelThen(all: seq<Token>, ts: seq<Token>)
    requires Terminated(all) && Terminated(ts) && StartsLabel(all) && Advance(Advance(all)) == ts
    ensures Items(all, LineStart) == WithItems([LabelItem(all[0].line, all[0].kind.text)], Items(ts, AfterLabel))
  {
    hide ReadStatement;
    assert Next(all, LineStart) == Read(LabelItem(all[0].line, all[0].kind.text), ts, AfterLabel);
    hide Next;
  }

  // ---- whole programs ----

  /** Consecutive items stand on consecutive lines, and each has a spelling. */
  predicate OnLines(items: seq<Item>, line: nat) {
    items != [] ==> Readable(items[0], line) && OnLines(items[1..], line + 1)
  }

  function SourceOf(items: seq<Item>, line: nat): string
    requires OnLines(items, line)
    decreases |items|
  {
    if items == [] then "" else Written(items[0]) + ("\n" + SourceOf(items[1..], line + 1))
  }

  lemma LineIsLexed(item: Item, rest: string)
    requires Readable(item, item.line)
    ensures Lex(Written(item) + ("\n" + rest), item.line)
         == Prefixed(OnLine(WrittenTokens(item), item.line) + [Token(Newline, item.line)], Lex(rest, item.line + 1))
  {
    hide Written, WrittenTokens, Readable, OnLine;
    var s := "\n" + rest;
    ItemIsLexed(item, s);
    assert s[1..] == rest;
    assert Lex(s, item.line) == Prefixed([Token(Newline, item.line)], Lex(rest, item.line + 1));
    hide Lex;
    if Lex(rest, item.line + 1).Tokens? {
      var us := Lex(rest, item.line + 1).tokens;
      var k := OnLine(WrittenTokens(item), item.line);
      assert k + ([Token(Newline, item.line)] + us) == (k + [Token(Newline, item.line)]) + us;
    }
  }

  /** Every program of labels, instructions and directives, one to a line, is what its source lexes and parses to. */
  lemma {:induction false} SourceReads(items: seq<Item>, line: nat)
    requires OnLines(items, line)
    ensures Lex(SourceOf(items, line), line).Tokens?
    ensures Items(Lex(SourceOf(items, line), line).tokens, LineStart) == Parsed(items)
    decreases |items|
  {
    hide Lex, Items, Written, WrittenTokens, Readable, OnLine;
    if items == [] {
      EmptyText(line);
    } else {
      ReadableLine(items[0], line);
      SourceReads(items[1..], line + 1);
      var rest := SourceOf(items[1..], line + 1);
      LineIsLexed(items[0], rest);
      var us := Lex(rest, line + 1).tokens;
      ItemIsRead(items[0], us);
      var k := OnLine(WrittenTokens(items[0]), line);
      assert (k + [Token(Newline, line)]) + us == k + ([Token(Newline, line)] + us);
      assert [items[0]] + items[1..] == items;
    }
  }

  /** Assembling the source of a program is assembling the program. */
  lemma SourceAssembles(items: seq<Item>) returns (lastLine: nat)
    requires OnLines(items, 1)
    ensures Assembler.Assemble(SourceOf(items, 1)) == Assembler.AssembleItems(items, lastLine)
  {
    hide Lex, Items, Layout.Build, Layout.LayOut, Assembler.Complete, OnLines, SourceOf;
    SourceReads(items, 1);
    var ts := Lex(SourceOf(items, 1), 1).tokens;
    Layout.BuildIsLayOut(ts, LineStart, Layout.NOTHING_PLACED);
    lastLine := ts[|ts| - 1].line;
  }

  lemma ReadableLine(item: Item, line: nat)
    requires Readable(item, line)
    ensures item.line == line
  {
  }
}
