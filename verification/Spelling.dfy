/** Every way to write a number or a string literal, and what each is read as
    (src/assembler/lexer.c, numbers and string escapes). */
module Spelling {
  import opened Words
  import opened Text
  import opened Lexer
  import opened Syntax
  import opened Printing

  // ---- numbers ----

  lemma ScanDigits(w: string, s: string)
    requires w != "" && AllIn(w, Digit) && Follows(s)
    ensures ScanNumeral(w + s) == Found(Num(NumeralValue(10, w)), |w|)
  {
    hide Span, NumeralValue;
    FollowStops(s);
    SpanExact(Digit, w, s);
    PieceSuffix(w, s);
    var t := w + s;
    assert In(w[0], Digit) && t[0] == w[0];
    if |w| >= 2 {
      assert In(w[1], Digit) && t[1] == w[1];
    }
  }

  lemma PrefixedText(x: char, w: string, s: string)
    ensures var t := ['0', x] + w + s;
            t[0] == '0' && t[1] == x && t[2..] == w + s && t[2..2 + |w|] == w
  {
  }

  lemma ScanHexDigits(x: char, w: string, s: string)
    requires (x == 'x' || x == 'X') && w != "" && AllIn(w, HexDigit) && Follows(s)
    ensures ScanNumeral(['0', x] + w + s) == Found(Num(NumeralValue(16, w)), 2 + |w|)
  {
    hide Span, NumeralValue, AllIn, Follows, Stops;
    FollowStops(s);
    SpanExact(HexDigit, w, s);
    PrefixedText(x, w, s);
  }

  /** A number as written: a sign, and decimal digits or `0x` and hexadecimal digits. */
  datatype Number = Number(negative: bool, prefix: string, digits: string) {
    predicate Valid() {
      && digits != ""
      && (prefix == "" || prefix == "0x" || prefix == "0X")
      && AllIn(digits, if prefix == "" then Digit else HexDigit)
    }

    function Unsigned(): string {
      prefix + digits
    }

    function Text(): string {
      if negative then "-" + Unsigned() else Unsigned()
    }

    function Magnitude(): int {
      NumeralValue(if prefix == "" then 10 else 16, digits)
    }

    function Value(): int {
      if negative then -Magnitude() else Magnitude()
    }
  }

  lemma ScanUnsigned(n: Number, s: string)
    requires n.Valid() && Follows(s)
    ensures ScanNumeral(n.Unsigned() + s) == Found(Num(n.Magnitude()), |n.Unsigned()|)
    ensures n.Unsigned() != "" && IsDecimal(n.Unsigned()[0])
  {
    hide ScanNumeral, NumeralValue;
    if n.prefix == "" {
      assert n.Unsigned() == n.digits;
      assert In(n.digits[0], Digit);
      ScanDigits(n.digits, s);
    } else {
      assert n.prefix == ['0', n.prefix[1]];
      ScanHexDigits(n.prefix[1], n.digits, s);
    }
  }

  lemma FirstOfNumber(n: Number, s: string)
    requires n.Valid() && Follows(s)
    ensures LexOne(n.Text() + s) == Found(Num(n.Value()), |n.Text()|)
    ensures n.Text() != "" && (n.Text()[0] == '-' || IsDecimal(n.Text()[0]))
  {
    hide ScanNumeral, NumeralValue;
    ScanUnsigned(n, s);
    if n.negative {
      assert (n.Text() + s)[1..] == n.Unsigned() + s;
    }
  }

  /** Every number lexes to its value, negated after a minus sign. */
  lemma NumberLexes(n: Number, s: string, line: nat)
    requires n.Valid() && Follows(s)
    ensures LexesTo(n.Text(), [Num(n.Value())], s, line)
  {
    hide LexOne, Prefixed, OnLine, NumeralValue;
    FirstOfNumber(n, s);
    PieceSuffix(n.Text(), s);
    OneOnLine(Num(n.Value()), line);
  }

  // ---- string literals ----

  /** The text stands for the byte inside a string literal: a plain character, an escape, or two hexadecimal
      digits after `\x`. */
  predicate Spells(t: string, b: byte) {
    || (|t| == 1 && t[0] !in {'\0', '\n', '\"', '\\'} && t[0] as int % 0x100 == b)
    || (t == "\\n" && b == 10)
    || (t == "\\r" && b == 13)
    || (t == "\\t" && b == 9)
    || (t == "\\0" && b == 0)
    || (t == "\\\\" && b == 0x5C)
    || (t == "\\\"" && b == 0x22)
    || (|t| == 4 && t[..2] == "\\x" && IsHex(t[2]) && IsHex(t[3]) && b == 16 * DigitValue(t[2]) + DigitValue(t[3]))
  }

  lemma TwoHexDigits(c: char, d: char)
    requires IsHex(c) && IsHex(d)
    ensures NumeralValue(16, [c, d]) == 16 * DigitValue(c) + DigitValue(d)
    ensures 0 <= 16 * DigitValue(c) + DigitValue(d) < 0x100
  {
    assert [c, d][..1] == [c] && [c][..0] == "";
    assert NumeralValue(16, [c]) == DigitValue(c);
  }

  /** One spelled byte at the front of a literal. */
  lemma SpelledByte(t: string, b: byte, s: string)
    requires Spells(t, b)
    ensures ScanLiteral(t + s) == Extend(b, |t|, ScanLiteral(s))
  {
    hide NumeralValue, Extend, DigitValue;
    PieceSuffix(t, s);
    var u := t + s;
    assert u[0] == t[0];
    if |t| >= 2 {
      assert u[1] == t[1];
    }
    if |t| == 4 {
      HexPiece(t, b, s);
    }
  }

  lemma HexPiece(t: string, b: byte, s: string)
    requires |t| == 4 && Spells(t, b)
    ensures t[0] == '\\' && t[1] == 'x' && (t + s)[2] == t[2] && (t + s)[3] == t[3]
    ensures (t + s)[4..] == s && NumeralValue(16, (t + s)[2..4]) % 0x100 == b
  {
    hide NumeralValue, DigitValue;
    assert t[..2][0] == '\\' && t[..2][1] == 'x';
    assert (t + s)[2..4] == [t[2], t[3]];
    TwoHexDigits(t[2], t[3]);
  }

  function Joined(ts: seq<string>): string {
    if ts == [] then "" else ts[0] + Joined(ts[1..])
  }

  /** The texts spell the bytes, one by one. */
  predicate AllSpell(ts: seq<string>, bytes: seq<byte>) {
    |ts| == |bytes| && forall i | 0 <= i < |ts| :: Spells(ts[i], bytes[i])
  }

  lemma {:induction false} SpelledLiteral(ts: seq<string>, bytes: seq<byte>, s: string)
    requires AllSpell(ts, bytes)
    ensures ScanLiteral(Joined(ts) + ("\"" + s)) == Closed(bytes, |Joined(ts)| + 1)
  {
    hide Spells, ScanLiteral, Extend;
    var end := "\"" + s;
    if ts == [] {
      assert "" + end == end;
      ClosingQuote(s);
    } else {
      SpelledLiteral(ts[1..], bytes[1..], s);
      SpelledByte(ts[0], bytes[0], Joined(ts[1..]) + end);
      assert Joined(ts) + end == ts[0] + (Joined(ts[1..]) + end);
      ExtendFirst(bytes, |ts[0]|, |Joined(ts[1..])| + 1);
    }
  }

  lemma ClosingQuote(s: string)
    ensures ScanLiteral("\"" + s) == Closed([], 1)
  {
    assert ("\"" + s)[0] == '\"';
  }

  lemma ExtendFirst(bytes: seq<byte>, n: nat, m: nat)
    requires bytes != []
    ensures Extend(bytes[0], n, Closed(bytes[1..], m)) == Closed(bytes, n + m)
  {
  }

  /** Every string literal lexes to the bytes its characters and escapes spell. */
  lemma StringLexes(ts: seq<string>, bytes: seq<byte>, s: string, line: nat)
    requires AllSpell(ts, bytes)
    ensures LexesTo("\"" + Joined(ts) + "\"", [Str(bytes)], s, line)
  {
    hide ScanLiteral, Prefixed, OnLine, Joined, AllSpell;
    SpelledLiteral(ts, bytes, s);
    var w := "\"" + Joined(ts) + "\"";
    assert (w + s)[0] == '\"' && (w + s)[1..] == Joined(ts) + ("\"" + s);
    PieceSuffix(w, s);
    OneOnLine(Str(bytes), line);
  }

  // ---- blanks and letter case ----

  lemma BlankLexes(c: char, s: string, line: nat)
    requires c in {' ', '\t', '\r'}
    ensures Lex([c] + s, line) == Lex(s, line)
  {
    PieceSuffix([c], s);
  }

  /** The texts differ at most in the case of their letters. */
  predicate SameLetters(a: string, b: string) {
    && |a| == |b|
    && forall i | 0 <= i < |a| ::
         a[i] == b[i] || (IsAlpha(a[i]) && IsAlpha(b[i]) && (a[i] as int - b[i] as int) in {32, -32})
  }

  lemma {:induction false} SameLower(a: string, b: string)
    requires SameLetters(a, b)
    ensures Lower(a) == Lower(b)
  {
    if a != "" {
      assert SameLetters(a[1..], b[1..]);
      SameLower(a[1..], b[1..]);
    }
  }

  lemma SameIdent(a: string, b: string)
    requires SameLetters(a, b)
    ensures forall name: string :: IdentEquals(a, name) == IdentEquals(b, name)
  {
    hide Lower;
    SameLower(a, b);
  }

  /** Mnemonics, names of system calls and registers are read without regard to case. */
  lemma CaseIsIgnored(a: string, b: string)
    requires SameLetters(a, b)
    ensures LookupMnemonic(a) == LookupMnemonic(b) && SyscallCode(a) == SyscallCode(b)
    ensures ParseRegister(a) == ParseRegister(b)
  {
    hide IdentEquals, ParseRegister, SameLetters;
    SameIdent(a, b);
    SameRegister(a, b);
  }

  lemma {:induction false} SameIndex(a: string, b: string, v: nat)
    requires SameLetters(a, b)
    ensures ScanIndex(a, v).0 == ScanIndex(b, v).0 && (ScanIndex(a, v).1 == "" <==> ScanIndex(b, v).1 == "")
    decreases |a|
  {
    if a != "" {
      assert SameLetters(a[1..], b[1..]);
      if IsDecimal(a[0]) {
        var w := v * 10 + (a[0] as int - '0' as int);
        if w <= 999 {
          SameIndex(a[1..], b[1..], w);
        }
      }
    }
  }

  lemma SameRegister(a: string, b: string)
    requires SameLetters(a, b)
    ensures ParseRegister(a) == ParseRegister(b)
  {
    hide ScanIndex;
    if |a| >= 2 {
      assert SameLetters(a[1..], b[1..]);
      SameIndex(a[1..], b[1..], 0);
      assert (a[0] == 'R' || a[0] == 'r') <==> (b[0] == 'R' || b[0] == 'r');
    }
  }
}
