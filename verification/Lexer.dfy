/** Tokens and the lexer: the token stream as a function of the source text, its
    compositionality over lines, and the lexing loop that computes it
    (src/assembler/token.h, src/assembler/lexer.c). */
module Lexer {
  import opened Words
  import opened Text

  datatype TokenKind =
    | Eof
    | Newline
    | Ident(text: string)
    | Directive(name: string)
    | Num(value: int)
    | Str(bytes: seq<byte>)
    | Comma
    | Colon
    | LBracket
    | RBracket

  datatype Token = Token(kind: TokenKind, line: nat)

  datatype LexFault =
    | NoDirectiveName | BadHexEscape | BadEscape | UnterminatedString
    | NoDigitAfterMinus | NoHexDigits | UnexpectedCharacter

  // ---- one lexeme ----

  /** What the text starts with, and how many characters it takes. */
  datatype Lexeme =
    | Blank(n: nat)
    | LineEnd
    | Found(kind: TokenKind, n: nat)
    | Fault(fault: LexFault)

  /** The inside of a string literal, from after the opening quote. */
  datatype Literal = Closed(bytes: seq<byte>, n: nat) | Broken(fault: LexFault)

  function Extend(b: byte, n: nat, rest: Literal): Literal {
    match rest
    case Closed(bytes, m) => Closed([b] + bytes, n + m)
    case Broken(_) => rest
  }

  /** The byte a one-letter escape stands for. */
  predicate IsSimpleEscape(c: char) {
    c in {'n', 'r', 't', '\\', '\"', '0'}
  }

  function SimpleEscape(c: char): byte
    requires IsSimpleEscape(c)
  {
    match c
    case 'n' => 10
    case 'r' => 13
    case 't' => 9
    case '0' => 0
    case _ => ByteOf(c)
  }

  function ScanLiteral(s: string): (r: Literal)
    ensures r.Closed? ==> 1 <= r.n <= |s|
    decreases |s|
  {
    if s == "" || s[0] == '\0' || s[0] == '\n' then Broken(UnterminatedString)
    else if s[0] == '\"' then Closed([], 1)
    else if s[0] != '\\' then Extend(ByteOf(s[0]), 1, ScanLiteral(s[1..]))
    else if |s| >= 2 && IsSimpleEscape(s[1]) then Extend(SimpleEscape(s[1]), 2, ScanLiteral(s[2..]))
    else if |s| >= 2 && s[1] == 'x' then
      if |s| >= 4 && IsHex(s[2]) && IsHex(s[3]) then
        Extend(NumeralValue(16, s[2..4]) % 0x100, 4, ScanLiteral(s[4..]))
      else Broken(BadHexEscape)
    else Broken(BadEscape)
  }

  /** A numeral without its sign. */
  function ScanNumeral(s: string): (r: Lexeme)
    ensures !r.LineEnd?
    ensures r.Found? ==> 1 <= r.n <= |s| && r.kind.Num?
    ensures r.Blank? ==> false
  {
    if s == "" || !IsDecimal(s[0]) then Fault(NoDigitAfterMinus)
    else if |s| >= 2 && s[0] == '0' && (s[1] == 'x' || s[1] == 'X') then
      var n := Span(HexDigit, s[2..]);
      if n == 0 then Fault(NoHexDigits) else Found(Num(NumeralValue(16, s[2..2 + n])), 2 + n)
    else
      var n := Span(Digit, s);
      Found(Num(NumeralValue(10, s[..n])), n)
  }

  function Negated(r: Lexeme): Lexeme {
    match r
    case Found(Num(v), n) => Found(Num(-v), n + 1)
    case _ => r
  }

  function Punctuation(c: char): TokenKind
    requires c in {',', ':', '[', ']'}
  {
    match c case ',' => Comma case ':' => Colon case '[' => LBracket case _ => RBracket
  }

  function LexOne(s: string): (r: Lexeme)
    requires s != "" && s[0] != '\0'
    ensures r.Blank? ==> 1 <= r.n <= |s|
    ensures r.Found? ==> 1 <= r.n <= |s|
    ensures r.LineEnd? <==> s[0] == '\n'
    ensures r.Found? ==> !r.kind.Eof? && !r.kind.Newline?
  {
    var c := s[0];
    if c == ' ' || c == '\t' || c == '\r' then Blank(1)
    else if c == ';' then Blank(Span(CommentChar, s))
    else if c == '\n' then LineEnd
    else if c in {',', ':', '[', ']'} then Found(Punctuation(c), 1)
    else if c == '.' then
      var n := Span(Alpha, s[1..]);
      if n == 0 then Fault(NoDirectiveName) else Found(Directive(s[1..1 + n]), 1 + n)
    else if c == '\"' then
      match ScanLiteral(s[1..])
      case Closed(bytes, n) => Found(Str(bytes), 1 + n)
      case Broken(f) => Fault(f)
    else if c == '-' then Negated(ScanNumeral(s[1..]))
    else if IsDecimal(c) then ScanNumeral(s)
    else if In(c, IdentChar) then
      var n := Span(IdentChar, s);
      Found(Ident(s[..n]), n)
    else Fault(UnexpectedCharacter)
  }

  // ---- the whole text ----

  datatype LexResult = Tokens(tokens: seq<Token>) | LexError(line: nat, fault: LexFault)

  function Prefixed(ts: seq<Token>, r: LexResult): LexResult {
    match r
    case Tokens(us) => Tokens(ts + us)
    case LexError(_, _) => r
  }

  predicate AtEnd(s: string) {
    s == "" || s[0] == '\0'
  }

  function Lex(s: string, line: nat): (r: LexResult)
    ensures r.Tokens? ==> r.tokens != [] && r.tokens[|r.tokens| - 1].kind == Eof
    ensures r.Tokens? ==> forall i | 0 <= i < |r.tokens| - 1 :: r.tokens[i].kind != Eof
    decreases |s|
  {
    if AtEnd(s) then Tokens([Token(Eof, line)])
    else
      match LexOne(s)
      case Blank(n) => Lex(s[n..], line)
      case LineEnd => Prefixed([Token(Newline, line)], Lex(s[1..], line + 1))
      case Found(k, n) => Prefixed([Token(k, line)], Lex(s[n..], line))
      case Fault(f) => LexError(line, f)
  }

  // ---- lexing is local to a line ----

  /** `a + tail` differs from `a` only past a newline, or not at all. */
  predicate Ends(tail: string) {
    tail == "" || tail[0] == '\n'
  }

  lemma {:induction false} LiteralLocal(a: string, tail: string)
    requires Ends(tail)
    ensures ScanLiteral(a + tail) == ScanLiteral(a)
    decreases |a|, 0
  {
    if a == "" {
      assert a + tail == tail;
    } else {
      var s := a + tail;
      assert s[0] == a[0];
      if a[0] == '\0' || a[0] == '\n' || a[0] == '\"' {
      } else if a[0] != '\\' {
        LiteralTail(a, tail, 1);
      } else if |a| >= 2 && IsSimpleEscape(a[1]) {
        LiteralTail(a, tail, 2);
      } else if |a| >= 4 && a[1] == 'x' && IsHex(a[2]) && IsHex(a[3]) {
        assert s[2..4] == a[2..4];
        LiteralTail(a, tail, 4);
      } else {
        LiteralEscapeFails(a, tail);
      }
    }
  }

  lemma LiteralTail(a: string, tail: string, n: nat)
    requires Ends(tail) && 1 <= n <= |a|
    ensures (a + tail)[n..] == a[n..] + tail
    ensures ScanLiteral((a + tail)[n..]) == ScanLiteral(a[n..])
    decreases |a| - n, 1
  {
    assert (a + tail)[n..] == a[n..] + tail;
    LiteralLocal(a[n..], tail);
  }

  lemma LiteralEscapeFails(a: string, tail: string)
    requires Ends(tail) && a != "" && a[0] == '\\'
    requires !(|a| >= 2 && IsSimpleEscape(a[1]))
    requires !(|a| >= 4 && a[1] == 'x' && IsHex(a[2]) && IsHex(a[3]))
    ensures ScanLiteral(a + tail) == ScanLiteral(a)
  {
    var s := a + tail;
    assert |a| >= 2 ==> s[1] == a[1];
    assert |a| >= 3 ==> s[2] == a[2];
    assert |a| >= 4 ==> s[3] == a[3];
    assert |a| < 4 && tail != "" ==> s[|a|] == '\n';
  }

  lemma DropAppend(a: string, tail: string, n: nat)
    requires n <= |a|
    ensures (a + tail)[n..] == a[n..] + tail
    ensures (a + tail)[..n] == a[..n]
  {
  }

  lemma EndsStop(tail: string, k: CharClass)
    requires Ends(tail)
    ensures Stops(k, tail)
  {
  }

  lemma NumeralLocal(a: string, tail: string)
    requires Ends(tail)
    ensures ScanNumeral(a + tail) == ScanNumeral(a)
  {
    hide NumeralValue;
    EndsStop(tail, Digit);
    EndsStop(tail, HexDigit);
    if a == "" {
      assert a + tail == tail;
    } else {
      SpanLocal(Digit, a, tail);
      DropAppend(a, tail, Span(Digit, a));
      if |a| >= 2 {
        DropAppend(a, tail, 2);
        SpanLocal(HexDigit, a[2..], tail);
        DropAppend(a, tail, 2 + Span(HexDigit, a[2..]));
        SliceAppend(a, tail, 2, 2 + Span(HexDigit, a[2..]));
      }
    }
  }

  lemma SliceAppend(a: string, tail: string, i: nat, j: nat)
    requires i <= j <= |a|
    ensures (a + tail)[i..j] == a[i..j]
  {
  }

  /** The first lexeme of a line does not depend on what follows the line. */
  lemma LexOneLocal(a: string, tail: string)
    requires a != "" && a[0] != '\0' && Ends(tail)
    ensures (a + tail)[0] == a[0]
    ensures LexOne(a + tail) == LexOne(a)
  {
    hide ScanNumeral, ScanLiteral;
    DropAppend(a, tail, 1);
    EndsStop(tail, CommentChar);
    EndsStop(tail, Alpha);
    EndsStop(tail, IdentChar);
    SpanLocal(CommentChar, a, tail);
    SpanLocal(Alpha, a[1..], tail);
    SliceAppend(a, tail, 1, 1 + Span(Alpha, a[1..]));
    SpanLocal(IdentChar, a, tail);
    DropAppend(a, tail, Span(IdentChar, a));
    LiteralLocal(a[1..], tail);
    NumeralLocal(a[1..], tail);
    NumeralLocal(a, tail);
  }

  predicate NoNul(s: string) {
    forall i | 0 <= i < |s| :: s[i] != '\0'
  }

  /** The tokens of `a`, a newline on the line where `a` ends, then those of `b`. */
  function ThenLine(a: LexResult, b: string): LexResult {
    match a
    case LexError(_, _) => a
    case Tokens(ts) =>
      if ts == [] then a
      else
        var n := |ts| - 1;
        Prefixed(ts[..n] + [Token(Newline, ts[n].line)], Lex(b, ts[n].line + 1))
  }

  lemma ThenError(line: nat, f: LexFault, b: string)
    ensures ThenLine(LexError(line, f), b) == LexError(line, f)
  {
  }

  lemma PrefixedThen(ts: seq<Token>, r: LexResult, b: string)
    requires r.Tokens? ==> r.tokens != []
    ensures ThenLine(Prefixed(ts, r), b) == Prefixed(ts, ThenLine(r, b))
  {
    if r.Tokens? {
      var us := r.tokens;
      var n := |us| - 1;
      var newline := [Token(Newline, us[n].line)];
      assert (ts + us)[..|ts| + n] == ts + us[..n];
      assert (ts + us[..n]) + newline == ts + (us[..n] + newline);
      var tail := Lex(b, us[n].line + 1);
      if tail.Tokens? {
        assert (ts + (us[..n] + newline)) + tail.tokens == ts + ((us[..n] + newline) + tail.tokens);
      }
    }
  }

  /** Lexing `a`, a newline and `b` is lexing `a`, then lexing `b` on the line after the one where `a`
      ends; an error in `a` is the error of the whole. */
  lemma {:induction false} LexLines(a: string, b: string, line: nat)
    requires NoNul(a)
    ensures Lex(a + "\n" + b, line) == ThenLine(Lex(a, line), b)
    decreases |a|
  {
    hide LexOne, ThenLine;
    var tail := "\n" + b;
    assert a + "\n" + b == a + tail;
    if a == "" {
      assert a + tail == tail;
      LexLinesEmpty(b, line);
    } else {
      assert a[0] != '\0';
      LexOneLocal(a, tail);
      match LexOne(a) {
        case Blank(n) => LexLinesTail(a, b, n, line);
        case LineEnd =>
          LexLinesTail(a, b, 1, line + 1);
          PrefixedThen([Token(Newline, line)], Lex(a[1..], line + 1), b);
        case Found(k, n) =>
          LexLinesTail(a, b, n, line);
          PrefixedThen([Token(k, line)], Lex(a[n..], line), b);
        case Fault(f) =>
          ThenError(line, f, b);
      }
    }
  }

  lemma LexLinesEmpty(b: string, line: nat)
    ensures Lex("\n" + b, line) == ThenLine(Lex("", line), b)
  {
    assert ("\n" + b)[1..] == b;
    assert Lex("", line) == Tokens([Token(Eof, line)]);
    assert [Token(Eof, line)][..0] + [Token(Newline, line)] == [Token(Newline, line)];
  }

  lemma LexLinesTail(a: string, b: string, n: nat, line: nat)
    requires 1 <= n <= |a| && NoNul(a)
    ensures Lex((a + ("\n" + b))[n..], line) == ThenLine(Lex(a[n..], line), b)
    decreases |a|, 0
  {
    DropAppend(a, "\n" + b, n);
    assert a[n..] + ("\n" + b) == a[n..] + "\n" + b;
    LexLines(a[n..], b, line);
  }

  // ---- line numbers ----

  /** How many of the first `n` tokens are newlines. */
  function NewlinesBefore(ts: seq<Token>, n: nat): nat
    requires n <= |ts|
    decreases n
  {
    if n == 0 then 0 else NewlinesBefore(ts, n - 1) + if ts[n - 1].kind == Newline then 1 else 0
  }

  lemma {:induction false} NewlinesConcat(ts: seq<Token>, us: seq<Token>, n: nat)
    requires n <= |us|
    ensures NewlinesBefore(ts + us, |ts| + n) == NewlinesBefore(ts, |ts|) + NewlinesBefore(us, n)
    decreases n
  {
    if n == 0 {
      NewlinesPrefix(ts, us, |ts|);
    } else {
      NewlinesConcat(ts, us, n - 1);
    }
  }

  lemma {:induction false} NewlinesPrefix(ts: seq<Token>, us: seq<Token>, n: nat)
    requires n <= |ts|
    ensures NewlinesBefore(ts + us, n) == NewlinesBefore(ts, n)
    decreases n
  {
    if n > 0 {
      NewlinesPrefix(ts, us, n - 1);
    }
  }

  /** Every token's line is the starting line plus the newlines before it. */
  lemma {:induction false} TokenLines(s: string, line: nat, i: nat)
    requires Lex(s, line).Tokens? && i < |Lex(s, line).tokens|
    ensures Lex(s, line).tokens[i].line == line + NewlinesBefore(Lex(s, line).tokens, i)
    decreases |s|, 0
  {
    hide LexOne;
    if !AtEnd(s) {
      match LexOne(s) {
        case Blank(n) => TokenLines(s[n..], line, i);
        case LineEnd => FirstTokenLine(Token(Newline, line), s[1..], line + 1, i);
        case Found(k, n) => FirstTokenLine(Token(k, line), s[n..], line, i);
        case Fault(_) =>
      }
    }
  }

  lemma FirstTokenLine(t: Token, s: string, line: nat, i: nat)
    requires Lex(s, line).Tokens? && i < 1 + |Lex(s, line).tokens|
    requires line == t.line + if t.kind == Newline then 1 else 0
    ensures var ts := [t] + Lex(s, line).tokens;
            ts[i].line == t.line + NewlinesBefore(ts, i)
    decreases |s|, 1
  {
    if i > 0 {
      var us := Lex(s, line).tokens;
      TokenLines(s, line, i - 1);
      NewlinesConcat([t], us, i - 1);
      assert ([t] + us)[i] == us[i - 1];
      OneToken(t);
    }
  }

  lemma OneToken(t: Token)
    ensures NewlinesBefore([t], 1) == if t.kind == Newline then 1 else 0
  {
    assert NewlinesBefore([t], 0) == 0;
  }

  function NewlineCount(s: string): nat {
    if s == "" then 0 else (if s[0] == '\n' then 1 else 0) + NewlineCount(s[1..])
  }

  predicate NoNewline(s: string, n: nat)
    requires n <= |s|
  {
    forall i | 0 <= i < n :: s[i] != '\n'
  }

  lemma {:induction false} SkipCount(s: string, n: nat)
    requires n <= |s| && NoNewline(s, n)
    ensures NewlineCount(s) == NewlineCount(s[n..])
    decreases n
  {
    if n > 0 {
      assert s[0] != '\n';
      assert s[1..][n - 1..] == s[n..];
      SkipCount(s[1..], n - 1);
    }
  }

  lemma {:induction false} SpanNoNewline(k: CharClass, s: string)
    ensures NoNewline(s, Span(k, s))
  {
    if s != "" && In(s[0], k) {
      SpanNoNewline(k, s[1..]);
      assert forall i | 1 <= i < Span(k, s) :: s[i] == s[1..][i - 1];
    }
  }

  lemma {:induction false} LiteralNoNewline(s: string)
    requires ScanLiteral(s).Closed?
    ensures NoNewline(s, ScanLiteral(s).n)
    decreases |s|
  {
    if s[0] != '\"' {
      var k := if s[0] != '\\' then 1 else if IsSimpleEscape(s[1]) then 2 else 4;
      LiteralNoNewline(s[k..]);
      assert forall i | k <= i < ScanLiteral(s).n :: s[i] == s[k..][i - k];
    }
  }

  lemma NumeralNoNewline(s: string)
    requires ScanNumeral(s).Found?
    ensures NoNewline(s, ScanNumeral(s).n)
  {
    hide NumeralValue;
    SpanNoNewline(Digit, s);
    if |s| >= 2 {
      SpanNoNewline(HexDigit, s[2..]);
      assert forall i | 2 <= i < 2 + Span(HexDigit, s[2..]) :: s[i] == s[2..][i - 2];
    }
  }

  /** No lexeme contains a newline. */
  lemma LexemeNoNewline(s: string)
    requires s != "" && s[0] != '\0'
    ensures LexOne(s).Blank? ==> NoNewline(s, LexOne(s).n)
    ensures LexOne(s).Found? ==> NoNewline(s, LexOne(s).n)
  {
    hide ScanNumeral, ScanLiteral;
    var t := s[1..];
    assert forall i | 1 <= i < |s| :: s[i] == t[i - 1];
    SpanNoNewline(CommentChar, s);
    SpanNoNewline(Alpha, t);
    SpanNoNewline(IdentChar, s);
    if s[0] == '\"' && ScanLiteral(t).Closed? {
      LiteralNoNewline(t);
    }
    if s[0] == '-' && ScanNumeral(t).Found? {
      NumeralNoNewline(t);
    }
    if IsDecimal(s[0]) && ScanNumeral(s).Found? {
      NumeralNoNewline(s);
    }
  }

  /** A text that lexes ends on its starting line plus the newline characters in it. */
  lemma {:induction false} LastLine(s: string, line: nat)
    requires NoNul(s) && Lex(s, line).Tokens?
    ensures var ts := Lex(s, line).tokens;
            ts[|ts| - 1] == Token(Eof, line + NewlineCount(s))
    decreases |s|
  {
    hide LexOne, NoNewline, Prefixed;
    if s != "" {
      assert s[0] != '\0';
      LexemeNoNewline(s);
      match LexOne(s) {
        case Blank(n) =>
          SkipCount(s, n);
          LastLine(s[n..], line);
        case LineEnd =>
          PrefixedEnd(Token(Newline, line), Lex(s[1..], line + 1));
          LastLine(s[1..], line + 1);
        case Found(k, n) =>
          PrefixedEnd(Token(k, line), Lex(s[n..], line));
          SkipCount(s, n);
          LastLine(s[n..], line);
        case Fault(_) =>
      }
    }
  }

  lemma PrefixedEnd(t: Token, r: LexResult)
    ensures Prefixed([t], r).Tokens? <==> r.Tokens?
    ensures r.Tokens? && r.tokens != [] ==>
              var ts := Prefixed([t], r).tokens; ts != [] && ts[|ts| - 1] == r.tokens[|r.tokens| - 1]
  {
  }
}
