/** Standard input and output as the interpreter sees them, and the decimal
    reader behind SYS READ_INT (src/vm.c, read_int_from_stdin). */
module Console {
  import opened Words

  datatype Output = PrintInt(value: int) | PrintChar(code: byte)

  const EOF: int := -1
  const MINUS: byte := 0x2D
  const ZERO: byte := 0x30
  /** The modulus of C's `unsigned long`. */
  const ULONG: nat := 0x1_0000_0000_0000_0000

  predicate IsSpace(c: int) {
    c == 0x20 || 0x09 <= c <= 0x0D
  }

  predicate IsDigit(c: int) {
    0x30 <= c <= 0x39
  }

  function SkipSpaces(s: seq<byte>): seq<byte> {
    if s != [] && IsSpace(s[0]) then SkipSpaces(s[1..]) else s
  }

  /** How many digits `s` starts with. */
  function DigitRun(s: seq<byte>): (n: nat)
    ensures n <= |s|
  {
    if s != [] && IsDigit(s[0]) then 1 + DigitRun(s[1..]) else 0
  }

  /** The number a run of digits denotes, with no bound on its length. */
  function DecimalValue(digits: seq<byte>): int {
    if digits == [] then 0
    else
      var last: int := digits[|digits| - 1];
      10 * DecimalValue(digits[..|digits| - 1]) + (last - ZERO)
  }

  /** The value READ_INT leaves in R0, and what it leaves on the stream. */
  function ReadInt(s: seq<byte>): (word, seq<byte>) {
    var t := SkipSpaces(s);
    var negative := t != [] && t[0] == MINUS;
    var u := if negative then t[1..] else t;
    var n := DigitRun(u);
    var v: int := DecimalValue(u[..n]);
    (Wrap(if negative then -v else v), u[n..])
  }

  // ---- what READ_INT makes of every input ----

  /** Space, tab, newline, vertical tab, form feed and carriage return. */
  predicate WhiteSpace(b: byte) {
    b in {0x20, 0x09, 0x0A, 0x0B, 0x0C, 0x0D}
  }

  predicate DecimalDigit(b: byte) {
    0x30 <= b <= 0x39
  }

  predicate AllSpaces(s: seq<byte>) {
    forall i | 0 <= i < |s| :: WhiteSpace(s[i])
  }

  predicate AllDigits(s: seq<byte>) {
    forall i | 0 <= i < |s| :: DecimalDigit(s[i])
  }

  /** An input is white space, perhaps a minus sign, as many digits as there are, and the rest. */
  datatype Numeral = Numeral(spaces: seq<byte>, negative: bool, digits: seq<byte>, rest: seq<byte>) {
    predicate Valid() {
      && AllSpaces(spaces) && AllDigits(digits)
      && (rest != [] ==> !DecimalDigit(rest[0]))
      && (rest != [] && digits == [] && !negative ==> !WhiteSpace(rest[0]) && rest[0] != 0x2D)
    }

    function Unsigned(): seq<byte> {
      digits + rest
    }

    function AfterSpaces(): seq<byte> {
      if negative then [0x2D] + Unsigned() else Unsigned()
    }

    function Input(): seq<byte> {
      spaces + AfterSpaces()
    }

    function Value(): int {
      if negative then -DecimalValue(digits) else DecimalValue(digits)
    }
  }

  lemma {:induction false} SkipAllSpaces(spaces: seq<byte>, t: seq<byte>)
    requires AllSpaces(spaces) && (t != [] ==> !IsSpace(t[0]))
    ensures SkipSpaces(spaces + t) == t
  {
    if spaces == [] {
      assert spaces + t == t;
    } else {
      assert (spaces + t)[1..] == spaces[1..] + t;
      SkipAllSpaces(spaces[1..], t);
    }
  }

  lemma {:induction false} RunOfDigits(digits: seq<byte>, rest: seq<byte>)
    requires AllDigits(digits) && (rest != [] ==> !IsDigit(rest[0]))
    ensures DigitRun(digits + rest) == |digits|
  {
    if digits == [] {
      assert digits + rest == rest;
    } else {
      assert (digits + rest)[1..] == digits[1..] + rest;
      RunOfDigits(digits[1..], rest);
    }
  }

  lemma AfterSpacesStarts(n: Numeral)
    requires n.Valid()
    ensures n.AfterSpaces() != [] ==> !IsSpace(n.AfterSpaces()[0])
    ensures n.negative <==> n.AfterSpaces() != [] && n.AfterSpaces()[0] == MINUS
  {
    if !n.negative && n.digits != [] {
      assert n.AfterSpaces()[0] == n.digits[0];
    }
  }

  /** READ_INT returns the signed decimal value of the digits modulo 65536 and leaves the stream at the first
      character that is not a digit. */
  lemma ReadIntReads(n: Numeral)
    requires n.Valid()
    ensures ReadInt(n.Input()) == (Wrap(n.Value()), n.rest)
  {
    hide DecimalValue, Wrap;
    AfterSpacesStarts(n);
    SkipAllSpaces(n.spaces, n.AfterSpaces());
    RunOfDigits(n.digits, n.rest);
    assert n.negative ==> n.AfterSpaces()[1..] == n.Unsigned();
    assert n.Unsigned()[..|n.digits|] == n.digits && n.Unsigned()[|n.digits|..] == n.rest;
  }

  lemma {:induction false} SplitSpaces(s: seq<byte>) returns (spaces: seq<byte>)
    ensures AllSpaces(spaces) && s == spaces + SkipSpaces(s)
    ensures SkipSpaces(s) != [] ==> !IsSpace(SkipSpaces(s)[0])
  {
    if s != [] && IsSpace(s[0]) {
      var tail := SplitSpaces(s[1..]);
      spaces := [s[0]] + tail;
    } else {
      spaces := [];
    }
  }

  lemma {:induction false} RunIsDigits(s: seq<byte>)
    ensures AllDigits(s[..DigitRun(s)])
    ensures DigitRun(s) < |s| ==> !IsDigit(s[DigitRun(s)])
  {
    if s != [] && IsDigit(s[0]) {
      RunIsDigits(s[1..]);
      forall i | 0 <= i < DigitRun(s) ensures IsDigit(s[i]) {
        assert i > 0 ==> s[i] == s[1..][..DigitRun(s[1..])][i - 1];
      }
    }
  }

  /** What is left after the sign, split where its digits end. */
  lemma SplitDigits(spaces: seq<byte>, negative: bool, u: seq<byte>) returns (n: Numeral)
    requires AllSpaces(spaces)
    requires u != [] && !negative ==> !IsSpace(u[0]) && u[0] != MINUS
    ensures n.Valid() && n.spaces == spaces && n.negative == negative && n.Unsigned() == u
  {
    hide AllSpaces, AllDigits;
    var k := DigitRun(u);
    RunIsDigits(u);
    assert u[..k] == [] && u[k..] != [] ==> u[k..][0] == u[0];
    n := Numeral(spaces, negative, u[..k], u[k..]);
    assert u[..k] + u[k..] == u;
  }

  /** Every input is of that shape, so the value READ_INT returns is settled for every input. */
  lemma EveryInputIsNumeral(s: seq<byte>) returns (n: Numeral)
    ensures n.Valid() && n.Input() == s
  {
    hide AllSpaces, AllDigits;
    var spaces := SplitSpaces(s);
    var t := SkipSpaces(s);
    if t != [] && t[0] == MINUS {
      n := SplitDigits(spaces, true, t[1..]);
      assert [MINUS] + t[1..] == t;
    } else {
      n := SplitDigits(spaces, false, t);
    }
  }

  // ---- the accumulator ----

  /** One turn of the accumulating loop, in C's `unsigned long`. */
  function Accumulate(magnitude: int, c: int): int {
    (magnitude * 10 + (c - ZERO)) % ULONG
  }

  function Magnitude(digits: seq<byte>): int {
    DecimalValue(digits) % ULONG
  }

  /** Reducing after every digit reaches the reduced decimal value. */
  lemma AccumulatorWraps(digits: seq<byte>, k: nat)
    requires k < |digits|
    ensures Accumulate(Magnitude(digits[..k]), digits[k]) == Magnitude(digits[..k + 1])
  {
    assert digits[..k + 1][..k] == digits[..k];
  }

  /** The low 16 bits survive the wrapping accumulator, and negating them negates the number. */
  lemma LowBitsSurvive(value: int)
    ensures Wrap(value % ULONG) == Wrap(value)
    ensures Wrap(0 - Wrap(value % ULONG)) == Wrap(-value)
  {
    LowBits(value);
    NegateWraps(value);
  }

  lemma LowBits(value: int)
    ensures Wrap(value % ULONG) == Wrap(value)
  {
  }

  lemma NegateWraps(value: int)
    ensures Wrap(0 - Wrap(value)) == Wrap(-value)
  {
  }

  /** The two streams. */
  class Streams {
    var stdin: seq<byte>
    var stdout: seq<Output>

    constructor (input: seq<byte>)
      ensures stdin == input && stdout == []
    {
      stdin := input;
      stdout := [];
    }

    method GetChar() returns (c: int)
      modifies this`stdin
      ensures old(stdin) == [] ==> c == EOF && stdin == []
      ensures old(stdin) != [] ==> c == old(stdin)[0] && stdin == old(stdin)[1..]
    {
      if stdin == [] {
        c := EOF;
      } else {
        c := stdin[0];
        stdin := stdin[1..];
      }
    }

    method UngetC(c: byte)
      modifies this`stdin
      ensures stdin == [c] + old(stdin)
    {
      stdin := [c] + stdin;
    }

    /** What is still to be read when `c` has just been taken. */
    ghost function Pending(c: int): seq<byte>
      requires c == EOF || 0 <= c < 0x100
      reads this
    {
      if c == EOF then [] else [c as byte] + stdin
    }

    /** The loop that discards leading white space. */
    method SkipLeadingSpace() returns (c: int)
      modifies this`stdin
      ensures c == EOF || 0 <= c < 0x100
      ensures c == EOF ==> stdin == []
      ensures Pending(c) == SkipSpaces(old(stdin))
    {
      ghost var s0 := stdin;
      c := GetChar();
      while IsSpace(c)
        invariant c == EOF ==> stdin == []
        invariant c == EOF || 0 <= c < 0x100
        invariant SkipSpaces(Pending(c)) == SkipSpaces(s0)
        decreases |stdin|, c
      {
        assert Pending(c)[1..] == stdin;
        c := GetChar();
      }
    }

    /** The loop that accumulates digits, the first character `c0` already taken. */
    method AccumulateDigits(c0: int) returns (c: int, hasDigit: bool, magnitude: int)
      requires c0 == EOF || 0 <= c0 < 0x100
      requires c0 == EOF ==> stdin == []
      modifies this`stdin
      ensures c == EOF || 0 <= c < 0x100
      ensures c == EOF ==> stdin == []
      ensures var u := old(Pending(c0));
              var n := DigitRun(u);
              && Pending(c) == u[n..]
              && hasDigit == (n > 0)
              && magnitude == Magnitude(u[..n])
    {
      ghost var u := Pending(c0);
      ghost var k: nat := 0;
      c, hasDigit, magnitude := c0, false, 0;
      assert Magnitude(u[..0]) == 0;
      hide Accumulate, Magnitude;
      while IsDigit(c)
        invariant c == EOF ==> stdin == []
        invariant c == EOF || 0 <= c < 0x100
        invariant k <= |u| && Pending(c) == u[k..]
        invariant DigitRun(u) == k + DigitRun(u[k..])
        invariant hasDigit == (k > 0)
        invariant magnitude == Magnitude(u[..k])
        decreases |u| - k
      {
        AccumulatorWraps(u, k);
        assert u[k..][1..] == u[k + 1..];
        hasDigit := true;
        magnitude := Accumulate(magnitude, c);
        c := GetChar();
        k := k + 1;
      }
    }

    method ReadIntFromStdin() returns (value: word)
      modifies this`stdin
      ensures (value, stdin) == ReadInt(old(stdin))
    {
      ghost var t := SkipSpaces(stdin);
      var c: int := SkipLeadingSpace();
      assert Pending(c) == t;
      var negative := false;
      if c == MINUS {
        negative := true;
        assert t[1..] == stdin;
        c := GetChar();
      }
      ghost var u := if negative then t[1..] else t;
      assert Pending(c) == u;
      var hasDigit, magnitude;
      c, hasDigit, magnitude := AccumulateDigits(c);
      if c != EOF {
        UngetC(c);
      }
      assert stdin == u[DigitRun(u)..];
      if !hasDigit {
        return 0;
      }
      LowBitsSurvive(DecimalValue(u[..DigitRun(u)]));
      var low16: int := Wrap(magnitude);
      value := if negative then Wrap(0 - low16) else low16;
    }
  }
}
