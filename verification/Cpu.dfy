/** The registers and the FLAGS word (src/cpu.c). */
module Cpu {
  import opened Words

  const INITIAL_SP: word := 0xFFFE

  type Registers = s: seq<word> | |s| == 8 witness [0, 0, 0, 0, 0, 0, 0, 0]

  const CLEARED: Registers := [0, 0, 0, 0, 0, 0, 0, 0]

  datatype Flag = Z | C | S | O

  /** `1u << bit`, for the four defined positions. */
  function Mask(f: Flag): bv16 {
    match f
    case Z => 1
    case C => 2
    case S => 4
    case O => 8
  }

  predicate Has(flags: bv16, mask: bv16) {
    flags & mask != 0
  }

  function With(flags: bv16, mask: bv16, value: bool): bv16 {
    if value then flags | mask else flags & !mask
  }

  predicate GetFlag(flags: bv16, f: Flag) {
    Has(flags, Mask(f))
  }

  function SetFlag(flags: bv16, f: Flag, value: bool): bv16 {
    With(flags, Mask(f), value)
  }

  /** Setting one flag gives it the value and leaves every other flag alone. */
  lemma FlagIndependence(flags: bv16, f: Flag, value: bool, g: Flag)
    ensures GetFlag(SetFlag(flags, f, value), g) == if g == f then value else GetFlag(flags, g)
  {
    hide Has, With, Mask, Apart;
    MasksApart(f, g);
    if f == g {
      OwnBits(flags, Mask(f), value);
    } else {
      OtherBits(flags, Mask(f), value, Mask(g));
    }
  }

  predicate Apart(m: bv16, n: bv16) {
    m & n == 0
  }

  lemma MasksApart(f: Flag, g: Flag)
    ensures Mask(f) != 0 && (f != g ==> Apart(Mask(f), Mask(g)))
  {
  }

  lemma OwnBits(flags: bv16, m: bv16, value: bool)
    requires m != 0
    ensures Has(With(flags, m, value), m) == value
  {
  }

  lemma OtherBits(flags: bv16, m: bv16, value: bool, n: bv16)
    requires Apart(m, n)
    ensures Has(With(flags, m, value), n) == Has(flags, n)
  {
  }

  /** Bits 4 to 15 of FLAGS are clear. */
  predicate ReservedClear(flags: bv16) {
    flags & 0xFFF0 == 0
  }

  lemma SetFlagReserved(flags: bv16, f: Flag, value: bool)
    requires ReservedClear(flags)
    ensures ReservedClear(SetFlag(flags, f, value))
  {
  }

  function FlagValue(flags: bv16, f: Flag, weight: bv16): bv16 {
    if GetFlag(flags, f) then weight else 0
  }

  /** A FLAGS word with its reserved bits clear is Z, C, S and O in bits 0 to 3. */
  lemma FlagPositions(flags: bv16)
    requires ReservedClear(flags)
    ensures flags == FlagValue(flags, Z, 1) | FlagValue(flags, C, 2) | FlagValue(flags, S, 4) | FlagValue(flags, O, 8)
  {
  }

  datatype CpuState = CpuState(r: Registers, pc: word, sp: word, flags: bv16)

  const POWER_ON := CpuState(CLEARED, 0, INITIAL_SP, 0)

  class Processor {
    const r: array<word>
    var pc: word
    var sp: word
    var flags: bv16

    ghost predicate Valid()
    {
      r.Length == 8
    }

    ghost function Snapshot(): CpuState
      requires Valid()
      reads this, r
    {
      CpuState(r[..], pc, sp, flags)
    }

    constructor ()
      ensures Valid() && fresh(r) && Snapshot() == POWER_ON
    {
      r := new word[8](i => 0);
      pc, sp, flags := 0, INITIAL_SP, 0;
      new;
      assert r[..] == CLEARED;
    }

    method Init()
      requires Valid()
      modifies this, r
      ensures Snapshot() == POWER_ON
    {
      for i := 0 to 8
        invariant forall k :: 0 <= k < i ==> r[k] == 0
      {
        r[i] := 0;
      }
      assert r[..] == CLEARED;
      pc := 0;
      sp := INITIAL_SP;
      flags := 0;
    }

    method TestFlag(f: Flag) returns (value: bool)
      ensures value == GetFlag(flags, f)
    {
      value := flags & Mask(f) != 0;
    }

    method AssignFlag(f: Flag, value: bool)
      modifies this`flags
      ensures flags == SetFlag(old(flags), f, value)
    {
      hide Mask;
      var mask := Mask(f);
      if value {
        flags := flags | mask;
      } else {
        flags := flags & !mask;
      }
    }
  }
}
