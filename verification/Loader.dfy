/** Loading a .bvm image: all-or-nothing validation, and a post-state that is a
    function of the image (src/loader.c, include/bytevm/loader.h). */
module Loader {
  import opened Words
  import opened Memory
  import opened Isa
  import opened Cpu
  import opened Machine
  import opened Interpreter
  import opened Console
  import Stack
  import Faults

  const HEADER_SIZE: nat := 16

  /** "BVM1". */
  const MAGIC: seq<byte> := [0x42, 0x56, 0x4D, 0x31]

  datatype Header = Header(entryPoint: word, codeSize: word, codeAddr: word, dataSize: word, dataAddr: word) {
    function CodeEnd(): nat {
      codeAddr + codeSize
    }

    function DataEnd(): nat {
      dataAddr + dataSize
    }
  }

  function WordAt(data: seq<byte>, i: nat): word
    requires i + 1 < |data|
  {
    FromBytes(data[i], data[i + 1])
  }

  function ReadHeader(data: seq<byte>): Header
    requires |data| >= HEADER_SIZE
  {
    Header(WordAt(data, 6), WordAt(data, 8), WordAt(data, 10), WordAt(data, 12), WordAt(data, 14))
  }

  /** Magic, version 1, reserved byte 0, and as many bytes as the header claims. */
  predicate ValidHeader(data: seq<byte>) {
    && |data| >= HEADER_SIZE
    && data[..4] == MAGIC && data[4] == 1 && data[5] == 0
    && |data| >= HEADER_SIZE + ReadHeader(data).codeSize + ReadHeader(data).dataSize
  }

  /** Both regions inside the address space, the entry point in the code, no overlap. */
  predicate ValidRegions(h: Header) {
    && h.CodeEnd() <= SIZE && h.DataEnd() <= SIZE
    && h.codeAddr <= h.entryPoint < h.CodeEnd()
    && !(h.codeAddr < h.DataEnd() && h.dataAddr < h.CodeEnd())
  }

  predicate Acceptable(data: seq<byte>) {
    ValidHeader(data) && ValidRegions(ReadHeader(data))
  }

  function CodeBytes(data: seq<byte>): (r: seq<byte>)
    requires ValidHeader(data)
    ensures |r| == ReadHeader(data).codeSize
  {
    data[HEADER_SIZE..HEADER_SIZE + ReadHeader(data).codeSize]
  }

  function DataBytes(data: seq<byte>): (r: seq<byte>)
    requires ValidHeader(data)
    ensures |r| == ReadHeader(data).dataSize
  {
    var h := ReadHeader(data);
    data[HEADER_SIZE + h.codeSize..HEADER_SIZE + h.codeSize + h.dataSize]
  }

  /** `stack_limit`: the top of the higher region, clamped to 0xFFFF. */
  function StackLimit(h: Header): word
    requires ValidRegions(h)
  {
    var top := if h.CodeEnd() > h.DataEnd() then h.CodeEnd() else h.DataEnd();
    if top > 0xFFFF then 0xFFFF else top
  }

  /** Memory after a load, byte by byte. */
  function LoadedByte(data: seq<byte>, a: word): byte
    requires Acceptable(data)
  {
    var h := ReadHeader(data);
    if h.codeAddr <= a < h.CodeEnd() then CodeBytes(data)[a - h.codeAddr]
    else if h.dataAddr <= a < h.DataEnd() then DataBytes(data)[a - h.dataAddr]
    else 0
  }

  function LoadedMemory(data: seq<byte>): Bytes
    requires Acceptable(data)
  {
    seq(SIZE, a requires 0 <= a < SIZE => LoadedByte(data, a))
  }

  /** The machine after a load: nothing of it but the streams comes from before. */
  function Loaded(data: seq<byte>, stdin: seq<byte>, stdout: seq<Console.Output>): State
    requires Acceptable(data)
  {
    var h := ReadHeader(data);
    State(POWER_ON.(pc := h.entryPoint), LoadedMemory(data), false, OK, 0, StackLimit(h), stdin, stdout)
  }

  /** Rejection leaves the machine as it was; acceptance gives the loaded state. */
  function Load(s: State, data: seq<byte>): Outcome {
    if Acceptable(data) then Done(Loaded(data, s.stdin, s.stdout)) else Outcome(s, BadHeader)
  }

  // ---- the loader itself ----

  /** `for (i = 0; i < size; i++) mem_write8(mem, addr + i, bytes[i])`. */
  method CopyRegion(mem: Ram, addr: word, bytes: seq<byte>)
    requires mem.Valid() && addr + |bytes| <= SIZE
    modifies mem.data
    ensures mem.Contents() == Overlay(old(mem.Contents()), addr, bytes)
  {
    hide Overlay, Wrap;
    ghost var before := mem.Contents();
    var i := 0;
    assert bytes[..0] == [];
    OverlayNothing(before, addr);
    while i < |bytes|
      invariant 0 <= i <= |bytes|
      invariant mem.Contents() == Overlay(before, addr, bytes[..i])
    {
      OverlayByte(mem.Contents(), addr + i, bytes[i]);
      mem.Write8(Wrap(addr + i), bytes[i]);
      assert bytes[..i + 1] == bytes[..i] + [bytes[i]];
      OverlayJoin(before, addr, bytes[..i], [bytes[i]]);
      i := i + 1;
    }
    assert bytes[..i] == bytes;
  }

  lemma OverlayByte(m: Bytes, addr: nat, b: byte)
    requires addr < SIZE
    ensures m[Wrap(addr) := b] == Overlay(m, addr, [b])
  {
  }

  lemma CopiesAreLoadedMemory(data: seq<byte>)
    requires Acceptable(data)
    ensures var h := ReadHeader(data);
            Overlay(Overlay(Zeroed(), h.codeAddr, CodeBytes(data)), h.dataAddr, DataBytes(data)) == LoadedMemory(data)
  {
    var h := ReadHeader(data);
    var m1 := Overlay(Zeroed(), h.codeAddr, CodeBytes(data));
    var m2 := Overlay(m1, h.dataAddr, DataBytes(data));
    forall a: word ensures m2[a] == LoadedMemory(data)[a] {
      OverlayAt(Zeroed(), h.codeAddr, CodeBytes(data), a);
      OverlayAt(m1, h.dataAddr, DataBytes(data), a);
    }
  }

  method VmLoad(vm: VM, data: seq<byte>) returns (result: VmResult)
    requires vm.Valid()
    modifies vm.Repr()
    ensures Outcome(vm.Snapshot(), result) == Load(old(vm.Snapshot()), data)
  {
    hide Overlay, LoadedMemory, ReadHeader, CodeBytes, DataBytes;
    if |data| < HEADER_SIZE {
      return BadHeader;
    }
    if data[..4] != MAGIC {
      return BadHeader;
    }
    if data[4] != 1 || data[5] != 0 {
      return BadHeader;
    }
    var h := ReadHeader(data);
    if |data| < HEADER_SIZE + h.codeSize + h.dataSize {
      return BadHeader;
    }
    var codeEnd := h.codeAddr + h.codeSize;
    var dataEnd := h.dataAddr + h.dataSize;
    if codeEnd > SIZE || dataEnd > SIZE {
      return BadHeader;
    }
    if !(h.entryPoint >= h.codeAddr && h.entryPoint < codeEnd) {
      return BadHeader;
    }
    if h.codeAddr < dataEnd && h.dataAddr < codeEnd {
      return BadHeader;
    }
    vm.cpu.Init();
    vm.memory.Init();
    vm.halted := false;
    vm.lastError := OK;
    vm.errorPc := 0;
    CopyRegion(vm.memory, h.codeAddr, CodeBytes(data));
    CopyRegion(vm.memory, h.dataAddr, DataBytes(data));
    CopiesAreLoadedMemory(data);
    vm.cpu.pc := h.entryPoint;
    var limit := if codeEnd > dataEnd then codeEnd else dataEnd;
    vm.stackLimit := if limit > 0xFFFF then 0xFFFF else limit;
    result := OK;
  }

  // ---- what a loaded machine keeps, for every image and every run ----

  lemma LoadedInv(data: seq<byte>, stdin: seq<byte>, stdout: seq<Console.Output>)
    requires Acceptable(data)
    ensures Stack.StackInv(Loaded(data, stdin, stdout)) && Faults.StatusInv(Loaded(data, stdin, stdout))
  {
    assert ReservedClear(0);
  }

  /** Where the higher region ends; 0x10000 is the top of memory. */
  function ProgramEnd(h: Header): nat {
    if h.codeAddr + h.codeSize > h.dataAddr + h.dataSize then h.codeAddr + h.codeSize else h.dataAddr + h.dataSize
  }

  lemma LimitIsEnd(data: seq<byte>)
    requires Acceptable(data)
    ensures var h := ReadHeader(data);
            1 <= ProgramEnd(h) <= SIZE && StackLimit(h) == if ProgramEnd(h) == SIZE then 0xFFFF else ProgramEnd(h)
  {
    hide ReadHeader;
  }

  /** In every state a loaded program can reach: SP is even and lies between the end of the program and the empty
      mark, and counts the words pushed; the reserved flags are clear; an error code means the machine is halted. */
  lemma ReachableInvariant(data: seq<byte>, stdin: seq<byte>, n: nat)
    requires Acceptable(data)
    ensures var s0 := Loaded(data, stdin, []);
            var s := Run(s0, n);
            && s.cpu.sp % 2 == 0
            && (s.cpu.sp == 0xFFFE || ProgramEnd(ReadHeader(data)) <= s.cpu.sp <= 0xFFFC)
            && s.cpu.sp == 0xFFFE - 2 * Stack.Depth(s0, n)
            && ReservedClear(s.cpu.flags)
            && (s.lastError != OK ==> s.halted)
  {
    hide Step, Run, LoadedMemory, ReservedClear, Stack.Depth, ProgramEnd, StackLimit;
    var s0 := Loaded(data, stdin, []);
    LimitIsEnd(data);
    LoadedInv(data, stdin, []);
    Stack.RunKeepsInv(s0, n);
    Stack.StackPointerCounts(s0, n);
    Faults.RunKeepsStatus(s0, n);
  }

  /** The instruction at PC is a PUSH or a CALL, about to be executed. */
  predicate AboutToPush(s: State) {
    !s.halted && DecodeAt(s).Decoded? && (DecodeAt(s).instr.opcode == PUSH || DecodeAt(s).instr.opcode == CALL)
  }

  lemma PushResult(s: State)
    requires AboutToPush(s)
    ensures Step(s).result == if s.cpu.sp < 2 || s.cpu.sp - 2 < s.stackLimit then StackOverflow else OK
    ensures Step(s).result == OK <==> Stack.Effect(s).PushOp?
  {
    hide Decode, Write16, Read16, Wrap, ReadInt, Taken, ExecAlu, LegalModes;
    DecodeThenEncode(s.mem, s.cpu.pc);
  }

  /** In every reachable state PUSH and CALL overflow exactly when SP is below 2, or the word below SP would start
      under the end of the program, or the program reaches the top of memory; otherwise they succeed. */
  lemma PushFaultsExactly(data: seq<byte>, stdin: seq<byte>, n: nat)
    requires Acceptable(data) && AboutToPush(Run(Loaded(data, stdin, []), n))
    ensures var h := ReadHeader(data);
            var s := Run(Loaded(data, stdin, []), n);
            Step(s).result ==
              if s.cpu.sp < 2 || s.cpu.sp - 2 < ProgramEnd(h) || ProgramEnd(h) > 0xFFFF then StackOverflow else OK
  {
    hide Step, Run, LoadedMemory, AboutToPush, ProgramEnd, StackLimit;
    var s0 := Loaded(data, stdin, []);
    LimitIsEnd(data);
    LoadedInv(data, stdin, []);
    Stack.RunKeepsInv(s0, n);
    PushResult(Run(s0, n));
  }

  /** How many words there are from the end of the program to the top of the stack at 0xFFFE. */
  function Room(h: Header): nat {
    if ProgramEnd(h) > 0xFFFE then 0 else (0xFFFE - ProgramEnd(h)) / 2
  }

  /** A loaded program can have exactly that many words on its stack: a PUSH or CALL succeeds if and only if fewer
      have been pushed and not yet popped. */
  lemma StackCapacity(data: seq<byte>, stdin: seq<byte>, n: nat)
    requires Acceptable(data) && AboutToPush(Run(Loaded(data, stdin, []), n))
    ensures var s0 := Loaded(data, stdin, []);
            Step(Run(s0, n)).result == OK <==> Stack.Depth(s0, n) < Room(ReadHeader(data))
  {
    hide Step, Run, LoadedMemory, AboutToPush, ProgramEnd, Loaded, Acceptable, ReadHeader, Stack.Depth;
    PushFaultsExactly(data, stdin, n);
    ReachableInvariant(data, stdin, n);
    LimitIsEnd(data);
  }

  lemma PushStaysAbove(s: State)
    requires Stack.Effect(s).PushOp?
    ensures s.cpu.sp >= s.stackLimit + 2 && s.cpu.sp <= 0xFFFF
    ensures s.cpu.sp % 2 == 0 ==> forall a: word | a < s.cpu.sp :: Step(s).state.mem[a] == s.mem[a]
  {
    hide Step, Decode;
    Stack.StepMoves(s);
    var v := Stack.Effect(s).value;
    if s.cpu.sp % 2 == 0 {
      forall a: word | a < s.cpu.sp ensures Step(s).state.mem[a] == s.mem[a] {
        Stack.WriteOutside(s.mem, s.cpu.sp, v, a);
      }
    }
  }

  /** PUSH and CALL write their two bytes without wrapping, and never over a loaded byte. */
  lemma PushSparesProgram(data: seq<byte>, stdin: seq<byte>, n: nat, a: word)
    requires Acceptable(data)
    requires Stack.Effect(Run(Loaded(data, stdin, []), n)).PushOp?
    ensures var h := ReadHeader(data);
            var s := Run(Loaded(data, stdin, []), n);
            && s.cpu.sp + 1 <= 0xFFFF
            && (h.codeAddr <= a < h.CodeEnd() || h.dataAddr <= a < h.DataEnd() ==> Step(s).state.mem[a] == s.mem[a])
  {
    hide Step, Run, LoadedMemory, Stack.Effect;
    var s0 := Loaded(data, stdin, []);
    var s := Run(s0, n);
    LoadedInv(data, stdin, []);
    Stack.RunKeepsInv(s0, n);
    PushStaysAbove(s);
  }

  lemma PopAddress(s: State)
    requires Stack.StackInv(s) && Stack.Effect(s).PopOp?
    ensures StackTop(s) == s.cpu.sp + 2 && StackTop(s) + 1 <= 0xFFFF
  {
    hide Step, Decode;
  }

  /** POP and RET read their two bytes without wrapping. */
  lemma PopStaysInside(data: seq<byte>, stdin: seq<byte>, n: nat)
    requires Acceptable(data)
    requires Stack.Effect(Run(Loaded(data, stdin, []), n)).PopOp?
    ensures var s := Run(Loaded(data, stdin, []), n);
            StackTop(s) == s.cpu.sp + 2 && StackTop(s) + 1 <= 0xFFFF
  {
    hide Step, Run, LoadedMemory, Stack.Effect;
    var s0 := Loaded(data, stdin, []);
    LoadedInv(data, stdin, []);
    Stack.RunKeepsInv(s0, n);
    PopAddress(Run(s0, n));
  }

  /** An address in both regions of the header. */
  predicate InBoth(h: Header, a: nat) {
    h.codeAddr <= a < h.codeAddr + h.codeSize && h.dataAddr <= a < h.dataAddr + h.dataSize
  }

  /** The loader accepts exactly the files that carry the magic, version 1 and a zero reserved byte, are as long as
      their header says, keep both regions inside memory and the entry point inside the code, and have no address
      in both regions; an empty data region is also refused strictly inside the code. */
  lemma AcceptedExactly(s: State, data: seq<byte>)
    ensures Load(s, data).result == OK <==>
            && |data| >= 16 && data[..6] == [0x42, 0x56, 0x4D, 0x31, 1, 0]
            && var h := ReadHeader(data);
            && |data| >= 16 + h.codeSize + h.dataSize
            && h.codeAddr + h.codeSize <= SIZE && h.dataAddr + h.dataSize <= SIZE
            && h.codeAddr <= h.entryPoint < h.codeAddr + h.codeSize
            && (forall a: nat :: !InBoth(h, a))
            && (h.dataSize == 0 ==> !(h.codeAddr < h.dataAddr < h.codeAddr + h.codeSize))
    ensures Load(s, data).result != OK ==> Load(s, data) == Outcome(s, BadHeader)
  {
    hide ReadHeader, Loaded;
    if |data| >= 16 {
      MagicBytes(data);
      var h := ReadHeader(data);
      if h.codeAddr < h.DataEnd() && h.dataAddr < h.CodeEnd() && h.dataSize > 0 && h.codeSize > 0 {
        assert InBoth(h, if h.codeAddr > h.dataAddr then h.codeAddr else h.dataAddr);
      }
    }
  }

  lemma MagicBytes(data: seq<byte>)
    requires |data| >= 16
    ensures data[..6] == [0x42, 0x56, 0x4D, 0x31, 1, 0] <==> data[..4] == MAGIC && data[4] == 1 && data[5] == 0
  {
    assert data[..6] == data[..4] + [data[4], data[5]];
    assert [0x42, 0x56, 0x4D, 0x31, 1, 0] == MAGIC + [1, 0];
  }

  /** The header's words are little-endian at offsets 6, 8, 10, 12 and 14. */
  lemma HeaderOffsets(data: seq<byte>)
    requires |data| >= 16
    ensures ReadHeader(data) ==
            Header(data[6] as int + 0x100 * data[7] as int, data[8] as int + 0x100 * data[9] as int,
                   data[10] as int + 0x100 * data[11] as int, data[12] as int + 0x100 * data[13] as int,
                   data[14] as int + 0x100 * data[15] as int)
  {
  }

  /** A loaded machine starts at the entry point with every register and flag zero, SP at 0xFFFE, running, with
      no error recorded. */
  lemma LoadedStart(data: seq<byte>, stdin: seq<byte>, stdout: seq<Console.Output>)
    requires Acceptable(data)
    ensures var s := Loaded(data, stdin, stdout);
            && s.cpu == CpuState([0, 0, 0, 0, 0, 0, 0, 0], ReadHeader(data).entryPoint, 0xFFFE, 0)
            && !s.halted && s.lastError == OK && s.errorPc == 0 && s.stdin == stdin && s.stdout == stdout
  {
    hide ReadHeader, LoadedMemory;
  }

  /** Bytes of a load, address by address: the code, the data, and zero everywhere else. */
  lemma LoadedMemoryExact(data: seq<byte>, a: word)
    requires Acceptable(data)
    ensures var h := ReadHeader(data);
            var m := LoadedMemory(data);
            && (h.codeAddr <= a < h.CodeEnd() ==> m[a] == data[HEADER_SIZE + a - h.codeAddr])
            && (h.dataAddr <= a < h.DataEnd() ==> m[a] == data[HEADER_SIZE + h.codeSize + a - h.dataAddr])
            && (!(h.codeAddr <= a < h.CodeEnd()) && !(h.dataAddr <= a < h.DataEnd()) ==> m[a] == 0)
  {
    hide ReadHeader;
    var h := ReadHeader(data);
    if h.codeAddr <= a < h.CodeEnd() {
      assert CodeBytes(data)[a - h.codeAddr] == data[HEADER_SIZE + a - h.codeAddr];
    } else if h.dataAddr <= a < h.DataEnd() {
      assert DataBytes(data)[a - h.dataAddr] == data[HEADER_SIZE + h.codeSize + a - h.dataAddr];
    }
  }
}
