/** Printed text lexes and parses back: numerals, registers, mnemonics, operands and
    whole disassembly lines (src/disassembler.c against src/assembler/lexer.c and parser.c). */
module Printing {
  import opened Options
  import opened Words
  import opened Isa
  import opened Text
  import opened Lexer
  import opened Syntax
  import opened Disassembler

  // ---- lexing printed pieces ----

  /** What can follow a printed word or numeral. */
  predicate Follows(s: string) {
    s == "" || s[0] in {',', ':', ']', ' ', '\n'}
  }

  lemma FollowStops(s: string)
    requires Follows(s)
    ensures Stops(IdentChar, s) && Stops(Digit, s) && Stops(HexDigit, s) && Stops(Alpha, s)
  {
  }

  lemma PieceSuffix(w: string, s: string)
    ensures (w + s)[|w|..] == s && (w + s)[..|w|] == w
  {
  }

  lemma LexSpace(s: string, line: nat)
    ensures Lex(" " + s, line) == Lex(s, line)
  {
    PieceSuffix(" ", s);
  }

  lemma LexPunctuation(c: char, s: string, line: nat)
    requires c in {',', ':', '[', ']'}
    ensures Lex([c] + s, line) == Prefixed([Token(Punctuation(c), line)], Lex(s, line))
  {
    PieceSuffix([c], s);
    hide Prefixed;
  }

  lemma LexIdent(w: string, s: string, line: nat)
    requires w != "" && AllIn(w, IdentChar) && !IsDecimal(w[0]) && Follows(s)
    ensures Lex(w + s, line) == Prefixed([Token(Ident(w), line)], Lex(s, line))
  {
    hide Prefixed, Span;
    FollowStops(s);
    SpanExact(IdentChar, w, s);
    PieceSuffix(w, s);
    assert In(w[0], IdentChar);
    assert (w + s)[0] == w[0];
  }

  lemma DirectiveText(w: string, s: string)
    ensures ("." + w + s)[1..] == w + s
    ensures ("." + w + s)[1..1 + |w|] == w
    ensures ("." + w + s)[1 + |w|..] == s
  {
  }

  lemma LexDirective(w: string, s: string, line: nat)
    requires w != "" && AllIn(w, Alpha) && Follows(s)
    ensures Lex("." + w + s, line) == Prefixed([Token(Directive(w), line)], Lex(s, line))
  {
    hide Prefixed, Span;
    FollowStops(s);
    SpanExact(Alpha, w, s);
    DirectiveText(w, s);
  }

  lemma {:induction false} DecimalDigits(v: nat)
    ensures forall i | 0 <= i < |Decimal(v)| :: IsDecimal(Decimal(v)[i])
  {
    hide NumeralValue;
    DecimalReads(v);
    forall i | 0 <= i < |Decimal(v)| ensures IsDecimal(Decimal(v)[i]) {
      assert In(Decimal(v)[i], Digit);
    }
  }

  /** `%u` lexes back to the number printed. */
  lemma LexDecimal(v: nat, s: string, line: nat)
    requires Follows(s)
    ensures Lex(Decimal(v) + s, line) == Prefixed([Token(Num(v), line)], Lex(s, line))
  {
    hide Prefixed, Span, Decimal, NumeralValue;
    var w := Decimal(v);
    FollowStops(s);
    DecimalReads(v);
    DecimalDigits(v);
    SpanExact(Digit, w, s);
    PieceSuffix(w, s);
    var t := w + s;
    assert t[0] == w[0];
    assert |t| >= 2 ==> t[1] == (if |w| >= 2 then w[1] else s[0]);
  }

  lemma HexText(w: string, s: string)
    ensures ("0x" + w + s)[2..] == w + s
    ensures ("0x" + w + s)[2..2 + |w|] == w
    ensures ("0x" + w + s)[2 + |w|..] == s
  {
  }

  /** `0x%0wX` lexes back to the number printed, if the width holds it. */
  lemma LexHex(v: nat, w: nat, s: string, line: nat)
    requires Follows(s) && w > 0 && v < Pow16(w)
    ensures Lex("0x" + Hex(v, w) + s, line) == Prefixed([Token(Num(v), line)], Lex(s, line))
  {
    hide Prefixed, Span, Hex, NumeralValue;
    var h := Hex(v, w);
    FollowStops(s);
    HexReads(v, w);
    SpanExact(HexDigit, h, s);
    HexText(h, s);
  }

  lemma Widths()
    ensures Pow16(2) == 0x100 && Pow16(4) == 0x1_0000
  {
  }

  // ---- words of the language ----

  predicate IsWord(w: string) {
    w != "" && AllIn(w, IdentChar) && !IsDecimal(w[0])
  }

  lemma MnemonicIsWord(op: Opcode)
    ensures IsWord(MnemonicFor(op))
  {
  }

  /** A case-blind fingerprint of a short word. */
  function Key(s: string): int {
    CharKey(s, 0) + 256 * CharKey(s, 1) + 0x1_0000 * CharKey(s, 2) + 0x100_0000 * CharKey(s, 3)
    + 0x1_0000_0000 * CharKey(s, 4)
  }

  function CharKey(s: string, i: nat): int {
    if i < |s| then ToLower(s[i]) as int else 0
  }

  lemma {:induction false} LowerAt(s: string, i: nat)
    requires i < |s|
    ensures Lower(s)[i] == ToLower(s[i])
  {
    if i > 0 {
      LowerAt(s[1..], i - 1);
    }
  }

  lemma SameCharKey(a: string, b: string, i: nat)
    requires IdentEquals(a, b)
    ensures CharKey(a, i) == CharKey(b, i)
  {
    if i < |a| {
      LowerAt(a, i);
      LowerAt(b, i);
    }
  }

  lemma SameKey(a: string, b: string)
    requires IdentEquals(a, b)
    ensures Key(a) == Key(b)
  {
    SameCharKey(a, b, 0);
    SameCharKey(a, b, 1);
    SameCharKey(a, b, 2);
    SameCharKey(a, b, 3);
    SameCharKey(a, b, 4);
  }

  lemma KeysSeparate()
    ensures forall a: string, b: string | IdentEquals(a, b) :: Key(a) == Key(b)
  {
    forall a: string, b: string | IdentEquals(a, b) ensures Key(a) == Key(b) {
      SameKey(a, b);
    }
  }

  lemma MnemonicKeys1()
    ensures Key("NOP") == 0x706F6E && Key("MOV") == 0x766F6D && Key("ADD") == 0x646461
    ensures Key("SUB") == 0x627573 && Key("MUL") == 0x6C756D && Key("DIV") == 0x766964
    ensures Key("MOD") == 0x646F6D && Key("AND") == 0x646E61 && Key("OR") == 0x726F
    ensures Key("XOR") == 0x726F78 && Key("NOT") == 0x746F6E
  {
  }

  lemma MnemonicKeys2()
    ensures Key("SHL") == 0x6C6873 && Key("SHR") == 0x726873 && Key("LOAD") == 0x64616F6C
    ensures Key("STORE") == 0x65726F7473 && Key("PUSH") == 0x68737570 && Key("POP") == 0x706F70
    ensures Key("CMP") == 0x706D63 && Key("JMP") == 0x706D6A && Key("JZ") == 0x7A6A
    ensures Key("JNZ") == 0x7A6E6A && Key("JG") == 0x676A
  {
  }

  lemma MnemonicKeys3()
    ensures Key("JGE") == 0x65676A && Key("JL") == 0x6C6A && Key("JLE") == 0x656C6A
    ensures Key("JB") == 0x626A && Key("JAE") == 0x65616A && Key("JA") == 0x616A
    ensures Key("JBE") == 0x65626A && Key("CALL") == 0x6C6C6163 && Key("RET") == 0x746572
    ensures Key("SYS") == 0x737973 && Key("HALT") == 0x746C6168
  {
  }

  lemma SameWordEquals()
    ensures forall a: string :: IdentEquals(a, a)
  {
  }

  lemma LooksUp1(op: Opcode)
    requires op in {NOP, MOV, ADD, SUB, MUL, DIV, MOD, AND, OR, XOR, NOT}
    ensures LookupMnemonic(MnemonicFor(op)) == Some(op)
  {
    hide IdentEquals, Key;
    var name := MnemonicFor(op);
    assert IdentEquals(name, name) by { SameWordEquals(); }
    assert forall b: string | IdentEquals(name, b) :: Key(name) == Key(b) by { KeysSeparate(); }
    MnemonicKeys1();
  }

  lemma LooksUp2(op: Opcode)
    requires op in {SHL, SHR, LOAD, STORE, PUSH, POP, CMP, JMP, JZ, JNZ, JG}
    ensures LookupMnemonic(MnemonicFor(op)) == Some(op)
  {
    hide IdentEquals, Key;
    var name := MnemonicFor(op);
    assert IdentEquals(name, name) by { SameWordEquals(); }
    assert forall b: string | IdentEquals(name, b) :: Key(name) == Key(b) by { KeysSeparate(); }
    MnemonicKeys1();
    MnemonicKeys2();
  }

  lemma LooksUp3(op: Opcode)
    requires op in {JGE, JL, JLE, JB, JAE}
    ensures LookupMnemonic(MnemonicFor(op)) == Some(op)
  {
    hide IdentEquals, Key;
    var name := MnemonicFor(op);
    assert IdentEquals(name, name) by { SameWordEquals(); }
    assert forall b: string | IdentEquals(name, b) :: Key(name) == Key(b) by { KeysSeparate(); }
    MnemonicKeys1();
    MnemonicKeys2();
    MnemonicKeys3();
  }

  lemma LooksUp4(op: Opcode)
    requires op in {JA, JBE, CALL, RET, SYS, HALT}
    ensures LookupMnemonic(MnemonicFor(op)) == Some(op)
  {
    hide IdentEquals, Key;
    var name := MnemonicFor(op);
    assert IdentEquals(name, name) by { SameWordEquals(); }
    assert forall b: string | IdentEquals(name, b) :: Key(name) == Key(b) by { KeysSeparate(); }
    MnemonicKeys1();
    MnemonicKeys2();
    MnemonicKeys3();
  }

  /** The assembler's mnemonic table inverts the disassembler's. */
  lemma MnemonicLooksUp(op: Opcode)
    ensures LookupMnemonic(MnemonicFor(op)) == Some(op)
  {
    hide LookupMnemonic, MnemonicFor;
    if op in {NOP, MOV, ADD, SUB, MUL, DIV, MOD, AND, OR, XOR, NOT} {
      LooksUp1(op);
    } else if op in {SHL, SHR, LOAD, STORE, PUSH, POP, CMP, JMP, JZ, JNZ, JG} {
      LooksUp2(op);
    } else if op in {JGE, JL, JLE, JB, JAE} {
      LooksUp3(op);
    } else {
      LooksUp4(op);
    }
  }

  lemma SyscallKeys()
    ensures Key("PRINT_INT") == Key("PRINT_CHAR")
    ensures Key("READ_INT") != Key("PRINT_INT") && Key("EXIT") != Key("PRINT_INT") && Key("EXIT") != Key("READ_INT")
  {
  }

  /** The assembler's syscall table inverts the disassembler's. */
  lemma SyscallLooksUp(code: word)
    requires SyscallNameFor(code).Some?
    ensures SyscallCode(SyscallNameFor(code).value) == Some(code)
  {
    hide IdentEquals, Key;
    KeysSeparate();
    SameWordEquals();
    SyscallKeys();
    PrintsDiffer();
  }

  lemma PrintsDiffer()
    ensures !IdentEquals("PRINT_CHAR", "PRINT_INT")
  {
  }

  lemma SyscallWords(code: word)
    requires SyscallNameFor(code).Some?
    ensures IsWord(SyscallNameFor(code).value)
    ensures ParseRegister(SyscallNameFor(code).value) == None
  {
  }

  function RegisterName(v: nat): string {
    "R" + Decimal(v)
  }

  lemma RegisterReads(v: nat)
    requires v < 8
    ensures IsWord(RegisterName(v)) && ParseRegister(RegisterName(v)) == Some(v)
  {
    assert Decimal(v) == [DigitChar(v)];
    var w := RegisterName(v);
    assert w[0] == 'R' && w[1] == DigitChar(v) && |w| == 2;
    var t := w[1..];
    assert t == [DigitChar(v)] && t[1..] == "";
    assert ScanIndex("", v) == (v, "");
    assert ScanIndex(t, 0) == ScanIndex(t[1..], v);
  }

  // ---- operands ----

  /** The tokens of a printed operand. */
  function OperandKinds(op: Opcode, o: Operand, mask: ModeMask): seq<TokenKind> {
    match o.mode
    case Absent => []
    case Reg => [Ident(RegisterName(o.value))]
    case RegIndirect => [LBracket, Ident(RegisterName(o.value)), RBracket]
    case Imm16 => [Num(o.value)]
    case Imm8 =>
      if op == SYS && SyscallNameFor(o.value).Some? then [Ident(SyscallNameFor(o.value).value)] else [Num(o.value)]
    case MemDirect => if mask.regIndirect then [LBracket, Num(o.value), RBracket] else [Num(o.value)]
  }

  /** Tokens of the given kinds, all on one line. */
  function OnLine(kinds: seq<TokenKind>, line: nat): (r: seq<Token>)
    ensures |r| == |kinds|
  {
    if kinds == [] then [] else [Token(kinds[0], line)] + OnLine(kinds[1..], line)
  }

  lemma {:induction false} OnLineConcat(a: seq<TokenKind>, b: seq<TokenKind>, line: nat)
    ensures OnLine(a + b, line) == OnLine(a, line) + OnLine(b, line)
  {
    if a == [] {
      assert a + b == b;
    } else {
      assert (a + b)[1..] == a[1..] + b;
      OnLineConcat(a[1..], b, line);
    }
  }

  /** `text`, before `s`, lexes to tokens of these kinds. */
  predicate LexesTo(text: string, kinds: seq<TokenKind>, s: string, line: nat) {
    Lex(text + s, line) == Prefixed(OnLine(kinds, line), Lex(s, line))
  }

  lemma LexesConcat(t1: string, k1: seq<TokenKind>, t2: string, k2: seq<TokenKind>, s: string, line: nat)
    requires LexesTo(t1, k1, t2 + s, line) && LexesTo(t2, k2, s, line)
    ensures LexesTo(t1 + t2, k1 + k2, s, line)
  {
    hide Lex, OnLine;
    assert (t1 + t2) + s == t1 + (t2 + s);
    OnLineConcat(k1, k2, line);
    if Lex(s, line).Tokens? {
      var us := Lex(s, line).tokens;
      assert OnLine(k1, line) + (OnLine(k2, line) + us) == (OnLine(k1, line) + OnLine(k2, line)) + us;
    }
  }

  lemma OneOnLine(k: TokenKind, line: nat)
    ensures OnLine([k], line) == [Token(k, line)]
  {
    assert [k][1..] == [];
  }

  lemma IdentLexes(w: string, s: string, line: nat)
    requires IsWord(w) && Follows(s)
    ensures LexesTo(w, [Ident(w)], s, line)
  {
    hide Lex, Prefixed, OnLine;
    LexIdent(w, s, line);
    OneOnLine(Ident(w), line);
  }

  lemma DecimalLexes(v: nat, s: string, line: nat)
    requires Follows(s)
    ensures LexesTo(Decimal(v), [Num(v)], s, line)
  {
    hide Lex, Prefixed, OnLine, Decimal;
    LexDecimal(v, s, line);
    OneOnLine(Num(v), line);
  }

  lemma AddressLexes(a: word, s: string, line: nat)
    requires Follows(s)
    ensures LexesTo(Address(a), [Num(a)], s, line)
  {
    hide Lex, Prefixed, OnLine, Hex, Pow16;
    Widths();
    LexHex(a, 4, s, line);
    OneOnLine(Num(a), line);
  }

  lemma PunctuationLexes(c: char, s: string, line: nat)
    requires c in {',', ':', '[', ']'}
    ensures LexesTo([c], [Punctuation(c)], s, line)
  {
    hide Lex, Prefixed, OnLine;
    LexPunctuation(c, s, line);
    OneOnLine(Punctuation(c), line);
  }

  lemma SpaceLexes(s: string, line: nat)
    ensures LexesTo(" ", [], s, line)
  {
    hide Lex;
    LexSpace(s, line);
    if Lex(s, line).Tokens? {
      assert [] + Lex(s, line).tokens == Lex(s, line).tokens;
    }
  }

  lemma BracketLexes(text: string, kind: TokenKind, s: string, line: nat)
    requires LexesTo(text, [kind], "]" + s, line)
    ensures LexesTo("[" + text + "]", [LBracket, kind, RBracket], s, line)
  {
    hide Lex, Prefixed, OnLine, LexesTo;
    PunctuationLexes(']', s, line);
    LexesConcat(text, [kind], "]", [RBracket], s, line);
    PunctuationLexes('[', (text + "]") + s, line);
    LexesConcat("[", [LBracket], text + "]", [kind] + [RBracket], s, line);
    assert "[" + (text + "]") == "[" + text + "]";
    assert [LBracket] + ([kind] + [RBracket]) == [LBracket, kind, RBracket];
  }

  /** Every printed operand lexes to its tokens. */
  lemma OperandLexes(op: Opcode, o: Operand, mask: ModeMask, s: string, line: nat)
    requires ValueFits(o) && o.mode != Absent && Follows(s)
    ensures LexesTo(FormatOperand(op, o, mask), OperandKinds(op, o, mask), s, line)
  {
    hide LexesTo, Decimal, Address, IsWord, ParseRegister;
    match o.mode {
      case Reg =>
        RegisterReads(o.value);
        IdentLexes(RegisterName(o.value), s, line);
      case RegIndirect =>
        RegisterReads(o.value);
        IdentLexes(RegisterName(o.value), "]" + s, line);
        BracketLexes(RegisterName(o.value), Ident(RegisterName(o.value)), s, line);
      case Imm16 => DecimalLexes(o.value, s, line);
      case Imm8 =>
        if op == SYS && SyscallNameFor(o.value).Some? {
          SyscallWords(o.value);
          IdentLexes(SyscallNameFor(o.value).value, s, line);
        } else {
          DecimalLexes(o.value, s, line);
        }
      case MemDirect =>
        if mask.regIndirect {
          AddressLexes(o.value, "]" + s, line);
          BracketLexes(Address(o.value), Num(o.value), s, line);
        } else {
          AddressLexes(o.value, s, line);
        }
    }
  }
}
