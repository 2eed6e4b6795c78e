/** Bytes and 16-bit words as bounded integers, with C's bitwise operators on them. */
module Words {

  type byte = b: int | 0 <= b < 0x100
  type word = w: int | 0 <= w < 0x1_0000

  /** The conversion `(uint16_t)x`, for any integer. */
  function Wrap(x: int): word {
    x % 0x1_0000
  }

  lemma WrapSmall(x: int)
    requires 0 <= x < 0x1_0000
    ensures Wrap(x) == x
  {
  }

  lemma WrapAdd(a: int, b: int)
    ensures Wrap(Wrap(a) + b) == Wrap(a + b)
  {
    var q := a / 0x1_0000;
    assert a == 0x1_0000 * q + Wrap(a);
  }

  function LowByte(w: word): byte {
    w % 0x100
  }

  function HighByte(w: word): byte {
    w / 0x100
  }

  /** The little-endian pair `lo | (hi << 8)`. */
  function FromBytes(lo: byte, hi: byte): word {
    lo + 0x100 * hi
  }

  /** The conversion `(int16_t)w`. */
  function Signed(w: word): (r: int)
    ensures -0x8000 <= r < 0x8000
    ensures Wrap(r) == w
  {
    if w >= 0x8000 then w - 0x1_0000 else w
  }

  // ---- bits ----

  function Pow2(n: nat): (p: nat)
    ensures p >= 1
  {
    if n == 0 then 1 else 2 * Pow2(n - 1)
  }

  /** Dividing a number does not enlarge it. */
  lemma QuotientBound(x: nat, d: nat)
    requires d >= 1
    ensures 0 <= x / d <= x
  {
    var q := x / d;
    assert x == q * d + x % d;
    ProductAtLeast(q, d);
  }

  lemma ProductAtLeast(q: nat, d: nat)
    requires d >= 1
    ensures q * d >= q
  {
  }

  lemma PowersOfTwo()
    ensures Pow2(8) == 0x100 && Pow2(15) == 0x8000 && Pow2(16) == 0x1_0000
  {
    assert Pow2(4) == 16;
    assert Pow2(8) == 0x100;
    assert Pow2(12) == 0x1000;
  }

  /** Bit `i` of `x`: `(x >> i) & 1`. */
  predicate Bit(x: nat, i: nat) {
    if i == 0 then x % 2 == 1 else Bit(x / 2, i - 1)
  }

  /** Applies a Boolean operator to each of the low `n` bits of two numbers. */
  function Bitwise(f: (bool, bool) -> bool, a: nat, b: nat, n: nat): (r: nat)
    ensures r < Pow2(n)
    decreases n
  {
    if n == 0 then 0
    else (if f(a % 2 == 1, b % 2 == 1) then 1 else 0) + 2 * Bitwise(f, a / 2, b / 2, n - 1)
  }

  /** `Bitwise` is the operator on every bit, and only on those. */
  lemma {:induction false} BitwiseBits(f: (bool, bool) -> bool, a: nat, b: nat, n: nat, i: nat)
    ensures Bit(Bitwise(f, a, b, n), i) == (i < n && f(Bit(a, i), Bit(b, i)))
    decreases n
  {
    if n == 0 {
      ZeroBits(i);
    } else if i > 0 {
      BitwiseBits(f, a / 2, b / 2, n - 1, i - 1);
      var r := Bitwise(f, a, b, n);
      assert r / 2 == Bitwise(f, a / 2, b / 2, n - 1);
    }
  }

  lemma {:induction false} ZeroBits(i: nat)
    ensures !Bit(0, i)
  {
    if i > 0 {
      ZeroBits(i - 1);
    }
  }

  function And(a: word, b: word): word {
    PowersOfTwo(); Bitwise((p, q) => p && q, a, b, 16)
  }

  function Or(a: word, b: word): word {
    PowersOfTwo(); Bitwise((p, q) => p || q, a, b, 16)
  }

  function Xor(a: word, b: word): word {
    PowersOfTwo(); Bitwise((p, q) => p != q, a, b, 16)
  }

  function Not(a: word): word {
    PowersOfTwo(); Bitwise((p, q) => !p, a, 0, 16)
  }

  /** The four operators act bit by bit. */
  lemma OperatorBits(a: word, b: word, i: nat)
    requires i < 16
    ensures Bit(And(a, b), i) == (Bit(a, i) && Bit(b, i))
    ensures Bit(Or(a, b), i) == (Bit(a, i) || Bit(b, i))
    ensures Bit(Xor(a, b), i) == (Bit(a, i) != Bit(b, i))
    ensures Bit(Not(a), i) == !Bit(a, i)
  {
    BitwiseBits((p, q) => p && q, a, b, 16, i);
    BitwiseBits((p, q) => p || q, a, b, 16, i);
    BitwiseBits((p, q) => p != q, a, b, 16, i);
    BitwiseBits((p, q) => !p, a, 0, 16, i);
  }

  /** A number is determined by its low bits. */
  lemma {:induction false} BitsDetermine(a: nat, b: nat, n: nat)
    requires a < Pow2(n) && b < Pow2(n)
    requires forall i: nat | i < n :: Bit(a, i) == Bit(b, i)
    ensures a == b
  {
    if n > 0 {
      assert Bit(a, 0) == Bit(b, 0);
      forall i: nat | i < n - 1 ensures Bit(a / 2, i) == Bit(b / 2, i) {
        assert Bit(a, i + 1) == Bit(b, i + 1);
      }
      BitsDetermine(a / 2, b / 2, n - 1);
    }
  }

  /** The top bit of an (i+1)-bit number compares it with 2^i. */
  lemma {:induction false} TopBit(x: nat, i: nat)
    requires x < Pow2(i + 1)
    ensures Bit(x, i) == (x >= Pow2(i))
  {
    if i > 0 {
      TopBit(x / 2, i - 1);
    }
  }

  lemma SignBit(x: word)
    ensures Bit(x, 15) == (x >= 0x8000)
    ensures Bit(x, 15) == (Signed(x) < 0)
  {
    PowersOfTwo();
    TopBit(x, 15);
  }

  /** `(x & 0x8000u) != 0`, the test the interpreter uses for S and inside O. */
  predicate HighBitSet(x: word) {
    And(x, 0x8000) != 0
  }

  lemma {:induction false} PowerBits(k: nat, i: nat)
    ensures Bit(Pow2(k), i) == (i == k)
  {
    if i > 0 && k > 0 {
      PowerBits(k - 1, i - 1);
    } else if i > 0 {
      ZeroBits(i - 1);
    }
  }

  lemma HighBitSetMeaning(x: word)
    ensures HighBitSet(x) == (x >= 0x8000)
  {
    PowersOfTwo();
    SignBit(x);
    var r := And(x, 0x8000);
    if x >= 0x8000 {
      OperatorBits(x, 0x8000, 15);
      PowerBits(15, 15);
      ZeroBits(15);
    } else {
      forall i: nat | i < 16 ensures Bit(r, i) == Bit(0, i) {
        OperatorBits(x, 0x8000, i);
        PowerBits(15, i);
        ZeroBits(i);
      }
      BitsDetermine(r, 0, 16);
    }
  }

  /** Joining two bytes, and taking a word apart, are inverse. */
  lemma JoinThenSplit(lo: byte, hi: byte)
    ensures LowByte(FromBytes(lo, hi)) == lo && HighByte(FromBytes(lo, hi)) == hi
  {
  }

  lemma SplitThenJoin(w: word)
    ensures FromBytes(LowByte(w), HighByte(w)) == w
  {
  }
}
