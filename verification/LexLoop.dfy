/** The lexing loop: one pass over the source, a position and a line number moving
    forward and tokens being appended, computing the token stream of `Lexer.Lex`
    (src/assembler/lexer.c, lex). */
module LexLoop {
  import opened Words
  import opened Text
  import opened Lexer

  lemma Suffixes(s: string, p: nat, n: nat)
    requires p + n <= |s|
    ensures s[p..][n..] == s[p + n..]
    ensures s[p..][..n] == s[p..p + n]
  {
  }

  lemma SpanNext(k: CharClass, s: string, q: nat)
    requires q <= |s|
    ensures q < |s| && In(s[q], k) ==> Span(k, s[q..]) == 1 + Span(k, s[q + 1..])
    ensures !(q < |s| && In(s[q], k)) ==> Span(k, s[q..]) == 0
  {
    if q < |s| {
      Suffixes(s, q, 1);
    }
  }

  /** `while (isclass(*q)) q++;` */
  method SkipClass(s: string, start: nat, k: CharClass) returns (q: nat)
    requires start <= |s|
    ensures start <= q <= |s| && q == start + Span(k, s[start..])
  {
    hide Span;
    q := start;
    while q < |s| && In(s[q], k)
      invariant start <= q <= |s|
      invariant q - start + Span(k, s[q..]) == Span(k, s[start..])
    {
      SpanNext(k, s, q);
      q := q + 1;
    }
    SpanNext(k, s, q);
  }

  lemma NumeralNext(base: nat, s: string, start: nat, p: nat)
    requires start <= p < |s|
    ensures NumeralValue(base, s[start..p + 1]) == base * NumeralValue(base, s[start..p]) + DigitValue(s[p])
  {
    assert s[start..p + 1] == s[start..p] + [s[p]];
    NumeralAppend(base, s[start..p], s[p]);
  }

  /** The loop that accumulates digits of one base. */
  method Accumulate(s: string, start: nat, k: CharClass, base: nat) returns (p: nat, value: int)
    requires start <= |s|
    ensures start <= p <= |s| && p == start + Span(k, s[start..])
    ensures value == NumeralValue(base, s[start..p])
  {
    hide Span, NumeralValue, DigitValue;
    p, value := start, 0;
    EmptyNumeral(base, s, start);
    while p < |s| && In(s[p], k)
      invariant start <= p <= |s|
      invariant p - start + Span(k, s[p..]) == Span(k, s[start..])
      invariant value == NumeralValue(base, s[start..p])
    {
      SpanNext(k, s, p);
      NumeralNext(base, s, start, p);
      value := base * value + DigitValue(s[p]);
      p := p + 1;
    }
    SpanNext(k, s, p);
  }

  lemma EmptyNumeral(base: nat, s: string, start: nat)
    requires start <= |s|
    ensures NumeralValue(base, s[start..start]) == 0
  {
  }

  /** An unsigned numeral starting at `start`. */
  method LexNumeral(s: string, start: nat) returns (r: Lexeme)
    requires start <= |s|
    ensures r == ScanNumeral(s[start..])
  {
    hide Span, NumeralValue;
    ghost var t := s[start..];
    if start == |s| || !IsDecimal(s[start]) {
      return Fault(NoDigitAfterMinus);
    }
    assert t[0] == s[start];
    if start + 1 < |s| && s[start] == '0' && (s[start + 1] == 'x' || s[start + 1] == 'X') {
      assert t[1] == s[start + 1];
      Suffixes(s, start, 2);
      if start + 2 == |s| || !IsHex(s[start + 2]) {
        SpanNext(HexDigit, s, start + 2);
        return Fault(NoHexDigits);
      }
      SpanNext(HexDigit, s, start + 2);
      var p, value := Accumulate(s, start + 2, HexDigit, 16);
      Suffixes(s, start + 2, p - (start + 2));
      SliceOfSuffix(s, start, 2, p - start);
      r := Found(Num(value), p - start);
    } else {
      assert start + 1 < |s| ==> t[1] == s[start + 1];
      var p, value := Accumulate(s, start, Digit, 10);
      Suffixes(s, start, p - start);
      r := Found(Num(value), p - start);
    }
  }

  lemma SliceOfSuffix(s: string, start: nat, i: nat, j: nat)
    requires i <= j && start + j <= |s|
    ensures s[start..][i..j] == s[start + i..start + j]
  {
  }

  /** Bytes already read, in front of what the rest of the literal gives. */
  function ExtendAll(bytes: seq<byte>, n: nat, rest: Literal): Literal {
    match rest
    case Closed(more, m) => Closed(bytes + more, n + m)
    case Broken(_) => rest
  }

  lemma ExtendStep(bytes: seq<byte>, n: nat, b: byte, k: nat, rest: Literal)
    ensures ExtendAll(bytes, n, Extend(b, k, rest)) == ExtendAll(bytes + [b], n + k, rest)
  {
    if rest.Closed? {
      assert bytes + ([b] + rest.bytes) == (bytes + [b]) + rest.bytes;
    }
  }

  datatype Piece = Byte(b: byte, k: nat) | Quote | Bad(fault: LexFault)

  /** How a piece at position `p` accounts for the rest of the literal. */
  predicate PieceAt(s: string, p: nat, piece: Piece)
    requires p <= |s|
  {
    match piece
    case Byte(b, k) =>
      1 <= k && p + k <= |s| && ScanLiteral(s[p..]) == Extend(b, k, ScanLiteral(s[p + k..]))
    case Quote => ScanLiteral(s[p..]) == Closed([], 1)
    case Bad(f) => ScanLiteral(s[p..]) == Broken(f)
  }

  /** One byte of a literal at position `p`, escape or not; the closing quote; or an error. */
  method LiteralByte(s: string, p: nat) returns (piece: Piece)
    requires p < |s| && s[p] != '\0' && s[p] != '\n'
    ensures PieceAt(s, p, piece)
  {
    hide NumeralValue;
    ghost var t := s[p..];
    assert t[0] == s[p];
    if s[p] == '\"' {
      return Quote;
    }
    if s[p] != '\\' {
      Suffixes(s, p, 1);
      return Byte(ByteOf(s[p]), 1);
    }
    if p + 1 == |s| {
      return Bad(BadEscape);
    }
    assert t[1] == s[p + 1];
    if IsSimpleEscape(s[p + 1]) {
      Suffixes(s, p, 2);
      return Byte(SimpleEscape(s[p + 1]), 2);
    }
    if s[p + 1] != 'x' {
      return Bad(BadEscape);
    }
    if p + 3 >= |s| || !IsHex(s[p + 2]) || !IsHex(s[p + 3]) {
      return Bad(BadHexEscape);
    }
    assert t[2] == s[p + 2] && t[3] == s[p + 3];
    SliceOfSuffix(s, p, 2, 4);
    Suffixes(s, p, 4);
    return Byte(NumeralValue(16, s[p + 2..p + 4]) % 0x100, 4);
  }

  /** The loop over a string literal, from after its opening quote. */
  method LexLiteral(s: string, start: nat) returns (r: Literal)
    requires start <= |s|
    ensures r == ScanLiteral(s[start..])
  {
    hide ScanLiteral, Extend;
    var p := start;
    var bytes: seq<byte> := [];
    ExtendNothing(ScanLiteral(s[start..]));
    while p < |s| && s[p] != '\0' && s[p] != '\n'
      invariant start <= p <= |s|
      invariant ExtendAll(bytes, p - start, ScanLiteral(s[p..])) == ScanLiteral(s[start..])
    {
      var piece := LiteralByte(s, p);
      match piece {
        case Quote => return Closed(bytes, p - start + 1);
        case Bad(f) => return Broken(f);
        case Byte(b, k) =>
          ExtendStep(bytes, p - start, b, k, ScanLiteral(s[p + k..]));
          bytes := bytes + [b];
          p := p + k;
      }
    }
    LiteralOpen(s, p);
    r := Broken(UnterminatedString);
  }

  lemma ExtendNothing(r: Literal)
    ensures ExtendAll([], 0, r) == r
  {
  }

  lemma LiteralOpen(s: string, p: nat)
    requires p <= |s|
    requires p == |s| || s[p] == '\0' || s[p] == '\n'
    ensures ScanLiteral(s[p..]) == Broken(UnterminatedString)
  {
  }

  /** The lexeme at position `p`. */
  method LexAt(s: string, p: nat) returns (r: Lexeme)
    requires p < |s| && s[p] != '\0'
    ensures s[p..][0] == s[p]
    ensures r == LexOne(s[p..])
  {
    hide Span, ScanLiteral, ScanNumeral;
    var c := s[p];
    Suffixes(s, p, 1);
    if c == ' ' || c == '\t' || c == '\r' {
      return Blank(1);
    }
    if c == ';' {
      var q := SkipClass(s, p, CommentChar);
      return Blank(q - p);
    }
    if c == '\n' {
      return LineEnd;
    }
    if c in {',', ':', '[', ']'} {
      return Found(Punctuation(c), 1);
    }
    if c == '.' {
      var q := SkipClass(s, p + 1, Alpha);
      if q == p + 1 {
        return Fault(NoDirectiveName);
      }
      SliceOfSuffix(s, p, 1, q - p);
      return Found(Directive(s[p + 1..q]), q - p);
    }
    if c == '\"' {
      var literal := LexLiteral(s, p + 1);
      match literal {
        case Closed(bytes, n) => return Found(Str(bytes), 1 + n);
        case Broken(f) => return Fault(f);
      }
    }
    if c == '-' {
      r := LexNumeral(s, p + 1);
      r := Negated(r);
      return;
    }
    if IsDecimal(c) {
      r := LexNumeral(s, p);
      return;
    }
    if In(c, IdentChar) {
      var q := SkipClass(s, p, IdentChar);
      SliceOfSuffix(s, p, 0, q - p);
      return Found(Ident(s[p..q]), q - p);
    }
    return Fault(UnexpectedCharacter);
  }

  lemma PrefixedTwice(ts: seq<Token>, us: seq<Token>, r: LexResult)
    ensures Prefixed(ts, Prefixed(us, r)) == Prefixed(ts + us, r)
    ensures Prefixed([], r) == r
  {
    if r.Tokens? {
      assert ts + (us + r.tokens) == (ts + us) + r.tokens;
    }
  }

  /** One turn of the main loop, on the specification. */
  lemma LexNext(s: string, p: nat, line: nat, r: Lexeme)
    requires p < |s| && s[p] != '\0'
    requires s[p..][0] == s[p] && r == LexOne(s[p..])
    ensures r.Blank? ==> p + r.n <= |s| && Lex(s[p..], line) == Lex(s[p + r.n..], line)
    ensures r.LineEnd? ==> Lex(s[p..], line) == Prefixed([Token(Newline, line)], Lex(s[p + 1..], line + 1))
    ensures r.Found? ==>
              p + r.n <= |s| && Lex(s[p..], line) == Prefixed([Token(r.kind, line)], Lex(s[p + r.n..], line))
    ensures r.Fault? ==> Lex(s[p..], line) == LexError(line, r.fault)
  {
    hide LexOne, Prefixed;
    var n := match r case Blank(n) => n case Found(_, n) => n case _ => 1;
    assert n <= |s[p..]|;
    Suffixes(s, p, n);
  }

  lemma LexDone(s: string, p: nat, line: nat)
    requires p <= |s|
    requires p == |s| || s[p] == '\0'
    ensures Lex(s[p..], line) == Tokens([Token(Eof, line)])
  {
  }

  method LexSource(source: string) returns (r: LexResult)
    ensures r == Lex(source, 1)
  {
    hide Lex, LexOne, Prefixed;
    var p, line := 0, 1;
    var tokens: seq<Token> := [];
    assert source[0..] == source;
    PrefixedTwice([], [], Lex(source, 1));
    while p < |source| && source[p] != '\0'
      invariant p <= |source|
      invariant Prefixed(tokens, Lex(source[p..], line)) == Lex(source, 1)
      decreases |source| - p
    {
      var lexeme := LexAt(source, p);
      LexNext(source, p, line, lexeme);
      LexemeAdvances(source[p..]);
      match lexeme {
        case Blank(n) => p := p + n;
        case LineEnd =>
          PrefixedTwice(tokens, [Token(Newline, line)], Lex(source[p + 1..], line + 1));
          tokens := tokens + [Token(Newline, line)];
          line := line + 1;
          p := p + 1;
        case Found(k, n) =>
          PrefixedTwice(tokens, [Token(k, line)], Lex(source[p + n..], line));
          tokens := tokens + [Token(k, line)];
          p := p + n;
        case Fault(f) =>
          PrefixedError(tokens, line, f);
          return LexError(line, f);
      }
    }
    LexDone(source, p, line);
    PrefixedLast(tokens, line);
    tokens := tokens + [Token(Eof, line)];
    r := Tokens(tokens);
  }

  lemma LexemeAdvances(s: string)
    requires s != "" && s[0] != '\0'
    ensures LexOne(s).Blank? || LexOne(s).Found? ==> LexOne(s).n >= 1
  {
  }

  lemma PrefixedError(ts: seq<Token>, line: nat, f: LexFault)
    ensures Prefixed(ts, LexError(line, f)) == LexError(line, f)
  {
  }

  lemma PrefixedLast(ts: seq<Token>, line: nat)
    ensures Prefixed(ts, Tokens([Token(Eof, line)])) == Tokens(ts + [Token(Eof, line)])
  {
  }
}
