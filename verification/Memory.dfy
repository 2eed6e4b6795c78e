/** The flat, byte-addressed 64 KB memory (src/memory.c). */
module Memory {
  import opened Words

  const SIZE: nat := 0x1_0000

  /** The contents of a memory. */
  type Bytes = m: seq<byte> | |m| == SIZE witness seq(SIZE, i => 0)

  function Zeroed(): Bytes {
    seq(SIZE, i => 0)
  }

  function Read16(m: Bytes, addr: word): word {
    FromBytes(m[addr], m[Wrap(addr + 1)])
  }

  function Write16(m: Bytes, addr: word, value: word): Bytes {
    m[addr := LowByte(value)][Wrap(addr + 1) := HighByte(value)]
  }

  /** A word read from the address it was written to is that word, at 0xFFFF as well. */
  lemma ReadBack(m: Bytes, addr: word, value: word)
    ensures Read16(Write16(m, addr, value), addr) == value
  {
    SplitThenJoin(value);
  }

  lemma Read16Bytes(m: Bytes, addr: word)
    ensures LowByte(Read16(m, addr)) == m[addr] && HighByte(Read16(m, addr)) == m[Wrap(addr + 1)]
  {
    JoinThenSplit(m[addr], m[Wrap(addr + 1)]);
  }

  /** The bytes from `addr` on, `n` of them, wrapping at the top of memory. */
  function Window(m: Bytes, addr: word, n: nat): (w: seq<byte>)
    ensures |w| == n
    decreases n
  {
    if n == 0 then [] else [m[addr]] + Window(m, Wrap(addr + 1), n - 1)
  }

  lemma ShortWindows(m: Bytes, addr: word)
    ensures Window(m, addr, 0) == []
    ensures Window(m, addr, 1) == [m[addr]]
    ensures Window(m, addr, 2) == [m[addr], m[Wrap(addr + 1)]]
  {
  }

  lemma {:induction false} WindowSplit(m: Bytes, addr: word, j: nat, k: nat)
    ensures Window(m, addr, j + k) == Window(m, addr, j) + Window(m, Wrap(addr + j), k)
    decreases j
  {
    if j > 0 {
      WindowSplit(m, Wrap(addr + 1), j - 1, k);
      WrapAdd(addr + 1, j - 1);
    }
  }

  /** A window that does not reach past the top is a slice. */
  lemma {:induction false} WindowIsSlice(m: Bytes, addr: word, n: nat)
    requires addr + n <= SIZE
    ensures Window(m, addr, n) == m[addr..addr + n]
    decreases n
  {
    if n > 1 {
      WindowIsSlice(m, addr + 1, n - 1);
      assert m[addr..addr + n] == [m[addr]] + m[addr + 1..addr + n];
    }
  }

  /** `bytes` laid over `m` from address `addr`, not past the top. */
  function Overlay(m: Bytes, addr: nat, bytes: seq<byte>): (r: Bytes)
    requires addr + |bytes| <= SIZE
  {
    m[..addr] + bytes + m[addr + |bytes|..]
  }

  /** What an overlay holds, address by address. */
  lemma OverlayAt(m: Bytes, addr: nat, bytes: seq<byte>, a: word)
    requires addr + |bytes| <= SIZE
    ensures Overlay(m, addr, bytes)[a] == if addr <= a < addr + |bytes| then bytes[a - addr] else m[a]
  {
  }

  lemma OverlayNothing(m: Bytes, a: nat)
    requires a <= SIZE
    ensures Overlay(m, a, []) == m
    ensures Overlay(m, 0, []) == m
  {
  }

  /** Two overlays end to end are one. */
  lemma OverlayJoin(m: Bytes, addr: nat, x: seq<byte>, y: seq<byte>)
    requires addr + |x| + |y| <= SIZE
    ensures Overlay(Overlay(m, addr, x), addr + |x|, y) == Overlay(m, addr, x + y)
  {
    var l := Overlay(Overlay(m, addr, x), addr + |x|, y);
    var r := Overlay(m, addr, x + y);
    assert l == r;
  }

  /** The memory array, updated in place. */
  class Ram {
    const data: array<byte>

    ghost predicate Valid()
    {
      data.Length == SIZE
    }

    ghost function Contents(): Bytes
      requires Valid()
      reads data
    {
      data[..]
    }

    constructor ()
      ensures Valid() && fresh(data) && Contents() == Zeroed()
    {
      data := new byte[SIZE](i => 0);
      new;
      assert data[..] == Zeroed();
    }

    method Init()
      requires Valid()
      modifies data
      ensures Contents() == Zeroed()
    {
      var i := 0;
      while i < data.Length
        invariant 0 <= i <= data.Length
        invariant forall k :: 0 <= k < i ==> data[k] == 0
      {
        data[i] := 0;
        i := i + 1;
      }
      assert data[..] == Zeroed();
    }

    method Read8(addr: word) returns (value: byte)
      requires Valid()
      ensures value == Contents()[addr]
    {
      value := data[addr];
    }

    method Write8(addr: word, value: byte)
      requires Valid()
      modifies data
      ensures Contents() == old(Contents())[addr := value]
    {
      data[addr] := value;
    }

    method LoadWord(addr: word) returns (value: word)
      requires Valid()
      ensures value == Read16(Contents(), addr)
    {
      value := FromBytes(data[addr], data[Wrap(addr + 1)]);
    }

    method StoreWord(addr: word, value: word)
      requires Valid()
      modifies data
      ensures Contents() == Write16(old(Contents()), addr, value)
    {
      data[addr] := LowByte(value);
      data[Wrap(addr + 1)] := HighByte(value);
    }
  }
}
