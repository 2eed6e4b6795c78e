/** What the ALU's bit formulas mean: exactness of C and O, the truth of the
    conditional jumps after CMP, and shifts as repeated one-bit shifts. */
module Arithmetic {
  import opened Words
  import opened Isa
  import Console
  import opened Cpu
  import opened Machine

  predicate Negative(w: word) {
    w >= 0x8000
  }

  lemma XorSign(a: word, b: word)
    ensures Negative(Xor(a, b)) == (Negative(a) != Negative(b))
  {
    hide Bitwise;
    OperatorBits(a, b, 15);
    SignBit(a);
    SignBit(b);
    SignBit(Xor(a, b));
  }

  lemma AndSign(a: word, b: word)
    ensures Negative(And(a, b)) == (Negative(a) && Negative(b))
  {
    hide Bitwise;
    OperatorBits(a, b, 15);
    SignBit(a);
    SignBit(b);
    SignBit(And(a, b));
  }

  /** ADD's overflow bit: both operands differ in sign from the result. */
  lemma AddOverflowSigns(a: word, b: word, result: word)
    ensures AddOverflows(a, b, result) == (Negative(a) != Negative(result) && Negative(b) != Negative(result))
  {
    hide And, Xor, HighBitSet;
    var x, y := Xor(a, result), Xor(b, result);
    XorSign(a, result);
    XorSign(b, result);
    AndSign(x, y);
    HighBitSetMeaning(And(x, y));
  }

  /** SUB's overflow bit: the operands differ in sign, and the result's is not the first one's. */
  lemma SubOverflowSigns(a: word, b: word, result: word)
    ensures SubOverflows(a, b, result) == (Negative(a) != Negative(b) && Negative(a) != Negative(result))
  {
    hide And, Xor, HighBitSet;
    var x, y := Xor(a, b), Xor(a, result);
    XorSign(a, b);
    XorSign(a, result);
    AndSign(x, y);
    HighBitSetMeaning(And(x, y));
  }

  // ---- exactness of C and O ----

  /** The mathematical result of ADD, SUB or MUL on two integers. */
  function Exact(op: Opcode, x: int, y: int): int
    requires op in {ADD, SUB, MUL}
  {
    match op
    case ADD => x + y
    case SUB => x - y
    case MUL => x * y
  }

  lemma ProductWraps(a: int, b: int, i: int, j: int)
    ensures Wrap((a - 0x1_0000 * i) * (b - 0x1_0000 * j)) == Wrap(a * b)
  {
    var k := 0x1_0000 * i * j - i * b - a * j;
    assert (a - 0x1_0000 * i) * (b - 0x1_0000 * j) == a * b + 0x1_0000 * k;
    WrapShift(a * b, k);
  }

  lemma WrapShift(x: int, k: int)
    ensures Wrap(x + 0x1_0000 * k) == Wrap(x)
  {
  }

  /** Reduced to a word, the exact result is the same under the signed and unsigned readings. */
  lemma ReadingsAgree(op: Opcode, a: word, b: word)
    requires op in {ADD, SUB, MUL}
    ensures Wrap(Exact(op, Signed(a), Signed(b))) == Wrap(Exact(op, a, b))
  {
    var i, j := if a >= 0x8000 then 1 else 0, if b >= 0x8000 then 1 else 0;
    match op {
      case ADD => WrapShift(a + b, -i - j);
      case SUB => WrapShift(a as int - b as int, j - i);
      case MUL => ProductWraps(a, b, i, j);
    }
  }

  /** A word stands exactly for an integer, unsigned or signed, iff the integer is in range. */
  lemma WordIsExact(x: int)
    ensures Wrap(x) == x <==> 0 <= x < 0x1_0000
    ensures Signed(Wrap(x)) == x <==> -0x8000 <= x < 0x8000
  {
  }

  lemma ProductBound(a: word, b: word)
    ensures 0 <= a * b
  {
  }

  /** ADD, SUB and MUL: the value is right modulo 65536 under both readings, C is clear iff it is
      the unsigned result, and O is clear iff it is the signed one. */
  lemma FlagsAreExact(op: Opcode, a: word, b: word)
    requires op in {ADD, SUB, MUL}
    ensures var r := Alu(op, a, b);
            && r.value == Wrap(Exact(op, a, b)) == Wrap(Exact(op, Signed(a), Signed(b)))
            && r.carry == To(r.value != Exact(op, a, b))
            && r.overflow == To(Signed(r.value) != Exact(op, Signed(a), Signed(b)))
  {
    match op {
      case ADD => AddIsExact(a, b);
      case SUB => SubIsExact(a, b);
      case MUL => MulIsExact(a, b);
    }
    ReadingsAgree(op, a, b);
  }

  lemma AddIsExact(a: word, b: word)
    ensures var r := AddResult(a, b);
            && r.value == Wrap(a + b)
            && r.carry == To(r.value != a + b)
            && r.overflow == To(Signed(r.value) != Signed(a) + Signed(b))
  {
    hide AddOverflows;
    AddOverflowSigns(a, b, Wrap(a + b));
  }

  lemma SubIsExact(a: word, b: word)
    ensures var r := SubResult(a, b);
            var d: int := a as int - b as int;
            && r.value == Wrap(d)
            && r.carry == To(r.value != d)
            && r.overflow == To(Signed(r.value) != Signed(a) - Signed(b))
  {
    hide SubOverflows;
    SubOverflowSigns(a, b, Difference(a, b));
  }

  lemma MulIsExact(a: word, b: word)
    ensures var r := MulResult(a, b);
            && r.value == Wrap(a * b)
            && r.carry == To(r.value != a * b)
            && r.overflow == To(Signed(r.value) != Signed(a) * Signed(b))
  {
    hide Wrap, Signed;
    var p, q := a * b, Signed(a) * Signed(b);
    ProductBound(a, b);
    WordIsExact(p);
    WordIsExact(q);
    ReadingsAgree(MUL, a, b);
  }

  /** The four flags of a result, read back from FLAGS. */
  lemma AluFlagsReadBack(flags: bv16, r: AluResult)
    ensures GetFlag(AluFlags(flags, r), Z) == (r.value == 0)
    ensures GetFlag(AluFlags(flags, r), S) == (Signed(r.value) < 0)
    ensures GetFlag(AluFlags(flags, r), C) == (if r.carry.To? then r.carry.value else GetFlag(flags, C))
    ensures GetFlag(AluFlags(flags, r), O) == (if r.overflow.To? then r.overflow.value else GetFlag(flags, O))
  {
    hide GetFlag, SetFlag, HighBitSet;
    HighBitSetMeaning(r.value);
    var f1 := ApplyChange(flags, C, r.carry);
    var f2 := ApplyChange(f1, O, r.overflow);
    var f3 := SetFlag(f2, Z, r.value == 0);
    forall g: Flag ensures GetFlag(AluFlags(flags, r), g) == (if g == S then HighBitSet(r.value)
        else if g == Z then r.value == 0 else GetFlag(f2, g)) {
      FlagIndependence(f2, Z, r.value == 0, g);
      FlagIndependence(f3, S, HighBitSet(r.value), g);
    }
    forall g: Flag ensures GetFlag(f2, g) == (if g == O && r.overflow.To? then r.overflow.value else GetFlag(f1, g)) {
      if r.overflow.To? { FlagIndependence(f1, O, r.overflow.value, g); }
    }
    forall g: Flag ensures GetFlag(f1, g) == (if g == C && r.carry.To? then r.carry.value else GetFlag(flags, g)) {
      if r.carry.To? { FlagIndependence(flags, C, r.carry.value, g); }
    }
  }

  /** The operand stands for the word: it is a register holding it, or the word itself written out. */
  predicate Supplies(c: CpuState, o: Operand, v: word) {
    (o.mode == Reg && o.value < 8 && c.r[o.value] == v) || (o.mode == Imm16 && o.value == v)
  }

  lemma SuppliedRead(c: CpuState, o: Operand, v: word)
    requires Supplies(c, o, v)
    ensures ValueFits(o) && ReadOperand(c, o) == v
  {
  }

  /** Every operand a legal instruction may compute with stands for exactly one word. */
  lemma EveryOperandSupplies(c: CpuState, o: Operand, mask: ModeMask) returns (v: word)
    requires mask.Allows(o.mode) && ValueFits(o) && mask in {MODES_REG, MODES_REG_IMM16}
    ensures Supplies(c, o, v) && forall w: word | Supplies(c, o, w) :: w == v
  {
    v := if o.mode == Reg then c.r[o.value] else o.value;
  }

  lemma ExecuteArithmetic(s: State, i: Instruction)
    requires WellFormed(i) && i.opcode in {ADD, SUB, MUL}
    ensures i.op1.value < 8
    ensures var r := Alu(i.opcode, s.cpu.r[i.op1.value], ReadOperand(s.cpu, i.op2));
            var t := Execute(s, i).state.cpu;
            && Execute(s, i).result == OK
            && t.flags == AluFlags(s.cpu.flags, r)
            && t.r[i.op1.value] == r.value
  {
    AluOperands(i);
    hide Alu, AluFlags;
  }

  /** What an executed ADD, SUB or MUL leaves in its register and in FLAGS, for all operands: the second
      is `b`, in a register or written out. */
  lemma ArithmeticInstruction(s: State, i: Instruction, b: word)
    requires WellFormed(i) && i.opcode in {ADD, SUB, MUL} && Supplies(s.cpu, i.op2, b)
    ensures i.op1.value < 8
    ensures var a := s.cpu.r[i.op1.value];
            var t := Execute(s, i).state.cpu;
            var result := t.r[i.op1.value];
            && Execute(s, i).result == OK
            && result == Wrap(Exact(i.opcode, a, b)) == Wrap(Exact(i.opcode, Signed(a), Signed(b)))
            && (!GetFlag(t.flags, C) <==> result == Exact(i.opcode, a, b))
            && (!GetFlag(t.flags, O) <==> Signed(result) == Exact(i.opcode, Signed(a), Signed(b)))
            && (GetFlag(t.flags, Z) <==> result == 0)
            && (GetFlag(t.flags, S) <==> Signed(result) < 0)
  {
    hide Execute, Alu, AluFlags, GetFlag, Exact, Wrap, Signed, ReadOperand;
    ExecuteArithmetic(s, i);
    SuppliedRead(s.cpu, i.op2, b);
    var a := s.cpu.r[i.op1.value];
    FlagsAreExact(i.opcode, a, b);
    AluFlagsReadBack(s.cpu.flags, Alu(i.opcode, a, b));
  }

  // ---- comparisons ----

  /** The relation each jump is documented to test after `CMP a, b`. */
  predicate Relation(op: Opcode, a: word, b: word)
    requires IsJump(op)
  {
    match op
    case JMP => true
    case JZ => a == b
    case JNZ => a != b
    case JG => Signed(a) > Signed(b)
    case JGE => Signed(a) >= Signed(b)
    case JL => Signed(a) < Signed(b)
    case JLE => Signed(a) <= Signed(b)
    case JB => a < b
    case JAE => a >= b
    case JA => a > b
    case JBE => a <= b
  }

  lemma SubSigns(a: word, b: word)
    ensures var r := SubResult(a, b);
            && (r.value == 0) == (a == b)
            && r.carry == To(a < b)
            && r.overflow.To? && ((Signed(r.value) < 0) != r.overflow.value) == (Signed(a) < Signed(b))
  {
    hide SubOverflows;
    SubOverflowSigns(a, b, Difference(a, b));
  }

  /** The flags of a subtraction decide every relation, for all pairs of words. */
  lemma JumpsMeanRelations(op: Opcode, flags: bv16, a: word, b: word)
    requires IsJump(op)
    ensures Taken(op, AluFlags(flags, SubResult(a, b))) == Relation(op, a, b)
  {
    SubSigns(a, b);
    AluFlagsReadBack(flags, SubResult(a, b));
    hide AluFlags, SubResult, GetFlag;
  }

  /** The instruction at PC is not one that sets flags (or nothing decodes, or the machine is halted). */
  predicate LeavesFlags(s: State) {
    s.halted || (DecodeAt(s).Decoded? ==> !IsAlu(DecodeAt(s).instr.opcode))
  }

  lemma ExecuteKeepsFlags(s: State, i: Instruction)
    requires WellFormed(i) && !IsAlu(i.opcode)
    ensures Execute(s, i).state.cpu.flags == s.cpu.flags
  {
    hide Console.ReadInt, Taken;
  }

  lemma StepKeepsFlags(s: State)
    requires LeavesFlags(s)
    ensures Step(s).state.cpu.flags == s.cpu.flags
  {
    hide Decode, Execute;
    match DecodeAt(s) {
      case Undecodable(_) =>
      case Decoded(i, next) =>
        DecodeThenEncode(s.mem, s.cpu.pc);
        if !s.halted {
          ExecuteKeepsFlags(Advanced(s, next), i);
        }
    }
  }

  lemma {:induction false} RunKeepsFlags(s: State, n: nat)
    requires forall k: nat | k < n :: LeavesFlags(Run(s, k))
    ensures Run(s, n).cpu.flags == s.cpu.flags
    decreases n
  {
    hide Step, LeavesFlags;
    if n > 0 {
      RunKeepsFlags(s, n - 1);
      StepKeepsFlags(Run(s, n - 1));
    }
  }

  predicate About(s: State, op: Opcode) {
    !s.halted && DecodeAt(s).Decoded? && DecodeAt(s).instr.opcode == op
  }

  lemma CompareStep(s: State)
    requires About(s, CMP)
    ensures var Decoded(i, next) := DecodeAt(s);
            && AluForm(i)
            && Step(s).state.cpu.flags
               == AluFlags(s.cpu.flags, SubResult(ReadOperand(s.cpu, i.op1), ReadOperand(s.cpu, i.op2)))
  {
    hide Decode, AluFlags, SubResult;
    DecodeThenEncode(s.mem, s.cpu.pc);
    AluOperands(DecodeAt(s).instr);
  }

  lemma JumpStep(s: State, op: Opcode)
    requires IsJump(op) && About(s, op)
    ensures var Decoded(i, next) := DecodeAt(s);
            Step(s).state.cpu.pc == if Taken(op, s.cpu.flags) then i.op1.value else next
  {
    hide Decode, Taken;
    DecodeThenEncode(s.mem, s.cpu.pc);
  }

  /** After `CMP a, b`, each operand in a register or written out, and any number of steps that leave FLAGS
      alone, a jump goes to its target iff the documented relation between a and b holds, and to the next
      instruction otherwise. */
  lemma ComparisonThenJump(s: State, a: word, b: word, n: nat, op: Opcode)
    requires About(s, CMP)
    requires Supplies(s.cpu, DecodeAt(s).instr.op1, a) && Supplies(s.cpu, DecodeAt(s).instr.op2, b)
    requires forall k: nat | k < n :: LeavesFlags(Run(Step(s).state, k))
    requires IsJump(op) && About(Run(Step(s).state, n), op)
    ensures var t := Run(Step(s).state, n);
            Step(t).state.cpu.pc
            == if Relation(op, a, b) then DecodeAt(t).instr.op1.value else DecodeAt(t).next
  {
    hide Step, LeavesFlags, AluFlags, SubResult, Relation, Taken, Decode, Run, ReadOperand;
    CompareStep(s);
    SuppliedRead(s.cpu, DecodeAt(s).instr.op1, a);
    SuppliedRead(s.cpu, DecodeAt(s).instr.op2, b);
    RunKeepsFlags(Step(s).state, n);
    JumpStep(Run(Step(s).state, n), op);
    JumpsMeanRelations(op, s.cpu.flags, a, b);
  }

  /** The relation each jump tests after `ADD` of a and b: of the sum modulo 65536, of the unsigned sum, or of
      the signed sum. */
  predicate SumRelation(op: Opcode, a: word, b: word)
    requires IsJump(op)
  {
    var zero := (a + b) % 0x1_0000 == 0;
    var fits := a + b <= 0xFFFF;
    var negative := Signed(a) + Signed(b) < 0;
    match op
    case JMP => true
    case JZ => zero
    case JNZ => !zero
    case JG => !zero && !negative
    case JGE => !negative
    case JL => negative
    case JLE => zero || negative
    case JB => !fits
    case JAE => fits
    case JA => fits && !zero
    case JBE => !fits || zero
  }

  lemma SumSigns(a: word, b: word)
    ensures var r := AddResult(a, b);
            && (r.value == 0) == ((a + b) % 0x1_0000 == 0)
            && r.carry == To(a + b > 0xFFFF)
            && r.overflow.To? && ((Signed(r.value) < 0) != r.overflow.value) == (Signed(a) + Signed(b) < 0)
  {
    hide AddOverflows;
    AddOverflowSigns(a, b, Wrap(Sum(a, b)));
  }

  lemma SumJumps(op: Opcode, flags: bv16, a: word, b: word)
    requires IsJump(op)
    ensures Taken(op, AluFlags(flags, AddResult(a, b))) == SumRelation(op, a, b)
  {
    hide AluFlags, AddResult, GetFlag, Signed;
    SumSigns(a, b);
    AluFlagsReadBack(flags, AddResult(a, b));
  }

  lemma AddStep(s: State)
    requires About(s, ADD)
    ensures var Decoded(i, next) := DecodeAt(s);
            && AluForm(i)
            && Step(s).state.cpu.flags
               == AluFlags(s.cpu.flags, AddResult(ReadOperand(s.cpu, i.op1), ReadOperand(s.cpu, i.op2)))
  {
    hide Decode, AluFlags, AddResult;
    DecodeThenEncode(s.mem, s.cpu.pc);
    AluOperands(DecodeAt(s).instr);
  }

  /** A jump after an addition, steps that leave FLAGS alone in between. Sums reach flags no comparison leaves,
      such as zero with carry. */
  lemma SumThenJump(s: State, a: word, b: word, n: nat, op: Opcode)
    requires About(s, ADD)
    requires Supplies(s.cpu, DecodeAt(s).instr.op1, a) && Supplies(s.cpu, DecodeAt(s).instr.op2, b)
    requires forall k: nat | k < n :: LeavesFlags(Run(Step(s).state, k))
    requires IsJump(op) && About(Run(Step(s).state, n), op)
    ensures var t := Run(Step(s).state, n);
            Step(t).state.cpu.pc
            == if SumRelation(op, a, b) then DecodeAt(t).instr.op1.value else DecodeAt(t).next
  {
    hide Step, LeavesFlags, AluFlags, AddResult, SumRelation, Taken, Decode, Run, ReadOperand;
    AddStep(s);
    SuppliedRead(s.cpu, DecodeAt(s).instr.op1, a);
    SuppliedRead(s.cpu, DecodeAt(s).instr.op2, b);
    RunKeepsFlags(Step(s).state, n);
    JumpStep(Run(Step(s).state, n), op);
    SumJumps(op, s.cpu.flags, a, b);
  }

  // ---- shifts ----

  /** One place to the left: the new value, and the bit shifted out. */
  function ShiftLeftOnce(v: word, carry: bool): (word, bool) {
    (Wrap(2 * v), v >= 0x8000)
  }

  function ShiftRightOnce(v: word, carry: bool): (word, bool) {
    (v / 2, v % 2 == 1)
  }

  /** `n` one-bit shifts, from a clear carry. */
  function RepeatShift(once: (word, bool) -> (word, bool), v: word, n: nat): (word, bool)
    decreases n
  {
    if n == 0 then (v, false)
    else
      var (w, c) := RepeatShift(once, v, n - 1);
      once(w, c)
  }

  lemma {:induction false} ClearTopBit(x: nat, k: nat, i: nat)
    requires x >= Pow2(k) && i < k
    ensures Bit(x - Pow2(k), i) == Bit(x, i)
  {
    if i > 0 {
      ClearTopBit(x / 2, k - 1, i - 1);
    }
  }

  /** A one-bit left shift moves each bit up by one. */
  lemma LeftOnceBits(x: word, i: nat)
    requires i < 15
    ensures Bit(Wrap(2 * x), i + 1) == Bit(x, i)
  {
    PowersOfTwo();
    if x >= 0x8000 {
      assert Wrap(2 * x) == 2 * (x - 0x8000);
      ClearTopBit(x, 15, i);
    }
  }

  lemma {:induction false} RepeatLeftBits(v: word, n: nat, j: nat)
    requires n + j < 16
    ensures Bit(RepeatShift(ShiftLeftOnce, v, n).0, n + j) == Bit(v, j)
    decreases n
  {
    if n > 0 {
      RepeatLeftBits(v, n - 1, j);
      LeftOnceBits(RepeatShift(ShiftLeftOnce, v, n - 1).0, n - 1 + j);
    }
  }

  lemma {:induction false} RepeatLeftValue(v: word, n: nat)
    ensures RepeatShift(ShiftLeftOnce, v, n).0 == Wrap(v * Pow2(n))
    decreases n
  {
    if n > 0 {
      RepeatLeftValue(v, n - 1);
      DoubleWraps(v * Pow2(n - 1));
      Regroup(v, Pow2(n - 1));
    }
  }

  lemma Regroup(v: int, p: int)
    ensures v * (2 * p) == 2 * (v * p)
  {
  }

  lemma DoubleWraps(x: int)
    ensures Wrap(2 * Wrap(x)) == Wrap(2 * x)
  {
    var q := x / 0x1_0000;
    assert 2 * x == 2 * Wrap(x) + 0x1_0000 * (2 * q);
    WrapShift(2 * Wrap(x), 2 * q);
  }

  /** Once the word is empty, further shifts leave it empty and the carry clear. */
  lemma {:induction false} RepeatEmpty(once: (word, bool) -> (word, bool), v: word, n: nat, m: nat)
    requires once == ShiftLeftOnce || once == ShiftRightOnce
    requires m > n && RepeatShift(once, v, n).0 == 0
    ensures RepeatShift(once, v, m) == (0, false)
    decreases m
  {
    if m > n + 1 {
      RepeatEmpty(once, v, n, m - 1);
    }
  }

  /** SHL's closed form is `n` one-bit shifts, for every count. */
  lemma ShiftLeftIsIterated(v: word, n: word)
    ensures ShiftLeft(v, n) == RepeatShift(ShiftLeftOnce, v, n)
  {
    PowersOfTwo();
    RepeatLeftValue(v, n);
    RepeatLeftValue(v, 16);
    if 1 <= n <= 16 {
      var before := RepeatShift(ShiftLeftOnce, v, n - 1).0;
      RepeatLeftBits(v, n - 1, 16 - n);
      SignBit(before);
    } else if n > 16 {
      RepeatEmpty(ShiftLeftOnce, v, 16, n);
    }
  }

  lemma MultiplesAreFar(d: int, k: int)
    requires d > 0
    ensures k >= 1 ==> d * k >= d
    ensures k <= -1 ==> d * k <= -d
  {
  }

  lemma DivisionUnique(x: int, d: int, q: int, r: int)
    requires 0 <= x && d > 0 && 0 <= r < d && x == d * q + r
    ensures x / d == q
  {
    var p, s := x / d, x % d;
    assert x == d * p + s;
    assert d * (p - q) == d * p - d * q;
    MultiplesAreFar(d, p - q);
  }

  /** Halving before or after dividing by `d` is dividing by `2 * d`. */
  lemma HalfOfQuotient(x: nat, d: nat)
    requires d > 0
    ensures x / (2 * d) == (x / d) / 2
  {
    var p, r := x / d, x % d;
    assert x == d * p + r;
    assert d * p == 2 * d * (p / 2) + d * (p % 2);
    DivisionUnique(x, 2 * d, p / 2, d * (p % 2) + r);
  }

  lemma QuotientOfHalf(x: nat, d: nat)
    requires d > 0
    ensures x / (2 * d) == (x / 2) / d
  {
    var p, r := (x / 2) / d, (x / 2) % d;
    assert x / 2 == d * p + r;
    DivisionUnique(x, 2 * d, p, 2 * r + x % 2);
  }

  lemma {:induction false} BitIsQuotient(v: nat, n: nat)
    ensures Bit(v, n) == ((v / Pow2(n)) % 2 == 1)
    decreases n
  {
    if n > 0 {
      BitIsQuotient(v / 2, n - 1);
      QuotientOfHalf(v, Pow2(n - 1));
    }
  }

  lemma {:induction false} RepeatRightValue(v: word, n: nat)
    ensures RepeatShift(ShiftRightOnce, v, n).0 == v / Pow2(n)
    decreases n
  {
    if n > 0 {
      RepeatRightValue(v, n - 1);
      HalfOfQuotient(v, Pow2(n - 1));
    }
  }

  /** SHR's closed form is `n` one-bit shifts, for every count. */
  lemma ShiftRightIsIterated(v: word, n: word)
    ensures ShiftRight(v, n) == RepeatShift(ShiftRightOnce, v, n)
  {
    PowersOfTwo();
    RepeatRightValue(v, n);
    RepeatRightValue(v, 16);
    if 1 <= n <= 16 {
      RepeatRightValue(v, n - 1);
      BitIsQuotient(v, n - 1);
    } else if n > 16 {
      RepeatEmpty(ShiftRightOnce, v, 16, n);
    }
  }
}
