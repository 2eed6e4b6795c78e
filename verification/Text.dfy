/** Source characters, character classes, and the printing and reading of numerals. */
module Text {
  import opened Words

  /** The classes of C's <ctype.h> (in the C locale) that the assembler uses. */
  datatype CharClass = Alpha | Digit | HexDigit | IdentChar | CommentChar

  predicate IsAlpha(c: char) {
    'a' <= c <= 'z' || 'A' <= c <= 'Z'
  }

  predicate IsDecimal(c: char) {
    '0' <= c <= '9'
  }

  predicate IsHex(c: char) {
    IsDecimal(c) || 'a' <= c <= 'f' || 'A' <= c <= 'F'
  }

  predicate In(c: char, k: CharClass) {
    match k
    case Alpha => IsAlpha(c)
    case Digit => IsDecimal(c)
    case HexDigit => IsHex(c)
    case IdentChar => IsAlpha(c) || IsDecimal(c) || c == '_'
    case CommentChar => c != '\0' && c != '\n'
  }

  /** The length of the longest run of a class that `s` starts with. */
  function Span(k: CharClass, s: string): (n: nat)
    ensures n <= |s|
  {
    if s != "" && In(s[0], k) then 1 + Span(k, s[1..]) else 0
  }

  predicate AllIn(s: string, k: CharClass) {
    forall i | 0 <= i < |s| :: In(s[i], k)
  }

  /** Whether a run of the class must stop at the start of `s`. */
  predicate Stops(k: CharClass, s: string) {
    s == "" || !In(s[0], k)
  }

  lemma {:induction false} SpanExact(k: CharClass, a: string, b: string)
    requires AllIn(a, k) && Stops(k, b)
    ensures Span(k, a + b) == |a|
  {
    if a == "" {
      assert a + b == b;
    } else {
      assert (a + b)[1..] == a[1..] + b;
      assert In(a[0], k);
      SpanExact(k, a[1..], b);
    }
  }

  /** A run is not lengthened by text that cannot continue it. */
  lemma {:induction false} SpanLocal(k: CharClass, a: string, b: string)
    requires Stops(k, b)
    ensures Span(k, a + b) == Span(k, a)
  {
    if a == "" {
      assert a + b == b;
    } else {
      assert (a + b)[1..] == a[1..] + b;
      SpanLocal(k, a[1..], b);
    }
  }

  // ---- numerals ----

  function ToLower(c: char): char {
    if 'A' <= c <= 'Z' then (c as int + 32) as char else c
  }

  /** The value of a digit, decimal or hexadecimal. */
  function DigitValue(c: char): int {
    var d := ToLower(c);
    if '0' <= d <= '9' then d as int - '0' as int else d as int - 'a' as int + 10
  }

  /** `value * base + digit`, from the left. */
  function NumeralValue(base: nat, s: string): int {
    if s == "" then 0 else base * NumeralValue(base, s[..|s| - 1]) + DigitValue(s[|s| - 1])
  }

  /** The byte of a character; source text is a sequence of bytes. */
  function ByteOf(c: char): byte {
    c as int % 0x100
  }

  function DigitChar(d: nat): char
    requires d < 16
  {
    if d < 10 then ('0' as int + d) as char else ('A' as int + d - 10) as char
  }

  lemma DigitCharValue(d: nat)
    requires d < 16
    ensures DigitValue(DigitChar(d)) == d
    ensures IsHex(DigitChar(d)) && (d < 10 ==> IsDecimal(DigitChar(d)))
  {
  }

  /** Digits mean their values, the letters in either case. */
  lemma DigitMeaning(d: nat)
    requires d < 16
    ensures DigitValue("0123456789ABCDEF"[d]) == d && DigitValue("0123456789abcdef"[d]) == d
  {
  }

  /** `%u`. */
  function Decimal(n: nat): (s: string)
    ensures |s| >= 1
  {
    if n < 10 then [DigitChar(n)] else Decimal(n / 10) + [DigitChar(n % 10)]
  }

  /** `%0wX`, for a number of at most `w` hexadecimal digits. */
  function Hex(n: nat, w: nat): (s: string)
    ensures |s| == w
    decreases w
  {
    if w == 0 then "" else Hex(n / 16, w - 1) + [DigitChar(n % 16)]
  }

  lemma NumeralAppend(base: nat, s: string, c: char)
    ensures NumeralValue(base, s + [c]) == base * NumeralValue(base, s) + DigitValue(c)
  {
    assert (s + [c])[..|s|] == s;
  }

  lemma AllInAppend(s: string, c: char, k: CharClass)
    requires AllIn(s, k) && In(c, k)
    ensures AllIn(s + [c], k)
  {
  }

  /** Decimal numerals read back as the number printed. */
  lemma {:induction false} DecimalReads(n: nat)
    ensures AllIn(Decimal(n), Digit) && NumeralValue(10, Decimal(n)) == n
  {
    hide DigitChar, DigitValue;
    if n < 10 {
      DigitCharValue(n);
      NumeralAppend(10, "", DigitChar(n));
      assert "" + [DigitChar(n)] == [DigitChar(n)];
    } else {
      DigitCharValue(n % 10);
      DecimalReads(n / 10);
      NumeralAppend(10, Decimal(n / 10), DigitChar(n % 10));
      AllInAppend(Decimal(n / 10), DigitChar(n % 10), Digit);
    }
  }

  function Pow16(w: nat): nat {
    if w == 0 then 1 else 16 * Pow16(w - 1)
  }

  /** Hexadecimal numerals read back as the number printed, if the width holds it. */
  lemma {:induction false} HexReads(n: nat, w: nat)
    requires n < Pow16(w)
    ensures AllIn(Hex(n, w), HexDigit) && NumeralValue(16, Hex(n, w)) == n
    decreases w
  {
    hide DigitChar, DigitValue;
    if w > 0 {
      DigitCharValue(n % 16);
      HexReads(n / 16, w - 1);
      NumeralAppend(16, Hex(n / 16, w - 1), DigitChar(n % 16));
      AllInAppend(Hex(n / 16, w - 1), DigitChar(n % 16), HexDigit);
    }
  }

  // ---- identifiers compared without regard to case ----

  function Lower(s: string): (r: string)
    ensures |r| == |s|
  {
    if s == "" then "" else [ToLower(s[0])] + Lower(s[1..])
  }

  predicate IdentEquals(a: string, b: string) {
    Lower(a) == Lower(b)
  }
}
