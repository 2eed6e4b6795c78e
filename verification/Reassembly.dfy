/** Disassembled lines put back through both passes: each line takes the bytes it
    stands for, at the address it came from (src/disassembler.c against src/assembler/parser.c). */
module Reassembly {
  import opened Words
  import opened Memory
  import opened Isa
  import opened Syntax
  import opened Layout
  import opened Emit
  import opened Disassembler
  import opened Lines

  // ---- one line ----

  /** The statement a code line becomes at the cursor. */
  function StatementOf(l: Line, line: nat, sec: Section): Statement
    requires l.ByteLine? || l.InstrLine?
  {
    match l
    case ByteLine(b) => ByteStmt(line, sec.inData, Cursor(sec), b)
    case InstrLine(i) =>
      InstrStmt(line, sec.inData, Cursor(sec), i.opcode, OperandsOf(i, line), i.op1.mode, i.op2.mode)
  }

  /** A printed operand resolves to the mode it was decoded with. */
  lemma ModeReads(o: Operand, mask: ModeMask)
    requires o.mode != Absent && mask.Allows(o.mode) && ValueFits(o)
    requires mask in {MODES_REG, MODES_REG_IMM16, MODES_MEM, MODES_MEM_DIRECT, MODES_IMM8}
    ensures ResolveMode(KindOf(o, mask), mask) == Legal(o.mode)
  {
  }

  /** The rows of the legality table: no operands, one, or two. */
  lemma TableRows(op: Opcode)
    ensures var masks := LegalModes(op);
            var used := {MODES_REG, MODES_REG_IMM16, MODES_MEM, MODES_MEM_DIRECT, MODES_IMM8};
            && (masks.0 == MODES_NONE ==> masks.1 == MODES_NONE)
            && (masks.0 == MODES_NONE || masks.0 in used)
            && (masks.1 == MODES_NONE || masks.1 in used)
  {
  }

  lemma MaskDecidesAbsence(i: Instruction)
    requires WellFormed(i)
    ensures (i.op1.mode == Absent) == (LegalModes(i.opcode).0 == MODES_NONE)
    ensures (i.op2.mode == Absent) == (LegalModes(i.opcode).1 == MODES_NONE)
  {
    hide LegalModes;
    TableRows(i.opcode);
  }

  lemma ModesRead(i: Instruction, line: nat)
    requires WellFormed(i)
    ensures InstructionModes(line, i.opcode, OperandsOf(i, line)) == Modes(i.op1.mode, i.op2.mode)
  {
    hide LegalModes, ResolveMode, KindOf;
    TableRows(i.opcode);
    MaskDecidesAbsence(i);
    var masks := LegalModes(i.opcode);
    if i.op1.mode != Absent {
      ModeReads(i.op1, masks.0);
    }
    if i.op2.mode != Absent {
      ModeReads(i.op2, masks.1);
    }
  }

  /** A printed operand resolves to the value it was decoded with, whatever the labels. */
  lemma ValueReads(o: Operand, mask: ModeMask, line: nat, symbols: map<string, word>)
    requires o.mode != Absent && ValueFits(o)
    ensures OperandValue(ParsedOperand(KindOf(o, mask), line), o.mode, symbols) == Value(o.value)
  {
  }

  lemma InstructionMeaning(i: Instruction, line: nat, sec: Section, symbols: map<string, word>)
    requires WellFormed(i)
    ensures Meaning(StatementOf(InstrLine(i), line, sec), symbols) == Encoded(Encode(i))
  {
    hide LegalModes, KindOf, OperandValue, Encode, Wrap;
    MaskDecidesAbsence(i);
    TableRows(i.opcode);
    WrapSmall(i.op1.value);
    WrapSmall(i.op2.value);
    var masks := LegalModes(i.opcode);
    if i.op1.mode != Absent {
      ValueReads(i.op1, masks.0, line, symbols);
    }
    if i.op2.mode != Absent {
      ValueReads(i.op2, masks.1, line, symbols);
    }
  }

  /** A code line is placed at the cursor, with the size and the bytes it stands for. */
  lemma LinePlaces(l: Line, line: nat, p: Pass1, symbols: map<string, word>)
    requires IsCodeLine(l)
    ensures |LineItems(l, line)| == 1 && !LineItems(l, line)[0].LabelItem?
    ensures var st := StatementOf(l, line, p.section);
            && Place(LineItems(l, line)[0], p) == Placed(Append(p, st))
            && Sized(st) && Size(st) == |LineBytes(l)| >= 1
            && Meaning(st, symbols) == Encoded(LineBytes(l))
  {
    hide InstructionModes, OperandsOf, Encode, Grow, WellFormed, Meaning;
    match l {
      case ByteLine(b) => ByteMeaning(b, line, p.section, symbols);
      case InstrLine(i) =>
        ModesRead(i, line);
        InstructionMeaning(i, line, p.section, symbols);
    }
  }

  lemma ByteMeaning(b: byte, line: nat, sec: Section, symbols: map<string, word>)
    ensures Meaning(StatementOf(ByteLine(b), line, sec), symbols) == Encoded([b])
  {
  }

  // ---- a run of lines ----

  function StatementsOf(ls: seq<Line>, line: nat, sec: Section): seq<Statement>
    requires AreCodeLines(ls)
  {
    if ls == [] then []
    else
      assert IsCodeLine(ls[0]);
      [StatementOf(ls[0], line, sec)] + StatementsOf(ls[1..], line + 1, Grow(sec, |LineBytes(ls[0])|))
  }

  function SectionAfter(ls: seq<Line>, sec: Section): Section {
    if ls == [] then sec else SectionAfter(ls[1..], Grow(sec, |LineBytes(ls[0])|))
  }

  lemma {:induction false} LinesPlace(ls: seq<Line>, line: nat, p: Pass1)
    requires AreCodeLines(ls)
    ensures LayOut(AllItems(ls, line), p)
         == Placed(Pass1(p.statements + StatementsOf(ls, line, p.section), p.symbols, SectionAfter(ls, p.section)))
    decreases |ls|
  {
    hide Place, LineItems, StatementOf, LineBytes, Grow;
    if ls == [] {
      assert p.statements + [] == p.statements;
    } else {
      var l := ls[0];
      assert IsCodeLine(l);
      LinePlaces(l, line, p, map[]);
      var st := StatementOf(l, line, p.section);
      var q := Append(p, st);
      LinesPlace(ls[1..], line + 1, q);
      var items := AllItems(ls, line);
      assert items == [LineItems(l, line)[0]] + AllItems(ls[1..], line + 1);
      assert items[1..] == AllItems(ls[1..], line + 1);
      assert (p.statements + [st]) + StatementsOf(ls[1..], line + 1, q.section)
          == p.statements + ([st] + StatementsOf(ls[1..], line + 1, q.section));
    }
  }

  lemma GrowTwice(sec: Section, j: nat, k: nat)
    ensures WithCursor(NoteStart(Grow(sec, j)), Wrap(Cursor(Grow(sec, j)) + k))
         == WithCursor(NoteStart(sec), Wrap(Cursor(sec) + (j + k)))
  {
    WrapAdd(Cursor(sec) + j, k);
    hide Wrap;
  }

  /** A run of lines starts its section where the cursor stood and moves the cursor over its bytes. */
  lemma {:induction false} SectionAfterRun(ls: seq<Line>, sec: Section)
    requires ls != []
    ensures SectionAfter(ls, sec) == WithCursor(NoteStart(sec), Wrap(Cursor(sec) + |AllBytes(ls)|))
    decreases |ls|
  {
    hide LineBytes, Wrap, NoteStart, WithCursor, Cursor;
    var n := |LineBytes(ls[0])|;
    var next := Grow(sec, n);
    if |ls| == 1 {
      assert ls[1..] == [];
    } else {
      SectionAfterRun(ls[1..], next);
      GrowTwice(sec, n, |AllBytes(ls[1..])|);
    }
  }

  lemma GrowCursor(sec: Section, n: nat)
    ensures Grow(sec, n).inData == sec.inData
    ensures Cursor(sec) + n < SIZE ==> Cursor(Grow(sec, n)) == Cursor(sec) + n
  {
  }

  lemma TargetAgain(b: Buffers, d: bool, x: Bytes, y: Bytes)
    ensures Target(WithTarget(b, d, x), d) == x
    ensures WithTarget(WithTarget(b, d, x), d, y) == WithTarget(b, d, y)
    ensures WithTarget(b, d, Target(b, d)) == b
  {
  }

  lemma BytesPositive(ls: seq<Line>)
    requires AreCodeLines(ls) && ls != []
    ensures |AllBytes(ls)| >= 1
  {
    assert IsCodeLine(ls[0]);
    hide Encode;
  }

  /** Pass 2 over a run of lines that ends within memory writes the lines' bytes at the cursor. */
  lemma {:induction false} LinesEmit(ls: seq<Line>, line: nat, sec: Section, symbols: map<string, word>, b: Buffers)
    requires AreCodeLines(ls) && Cursor(sec) + |AllBytes(ls)| <= SIZE
    ensures EmitAll(StatementsOf(ls, line, sec), symbols, b)
         == Emitted(WithTarget(b, sec.inData, Overlay(Target(b, sec.inData), Cursor(sec), AllBytes(ls))))
    decreases |ls|
  {
    hide EmitStatement, LineBytes, Grow, Overlay, Target, WithTarget, Meaning, Cursor, IsCodeLine;
    var d, a := sec.inData, Cursor(sec);
    var m := Target(b, d);
    if ls == [] {
      OverlayNothing(m, a);
      TargetAgain(b, d, m, m);
    } else {
      var x, rest := LineBytes(ls[0]), ls[1..];
      LineEmits(ls, line, sec, symbols, b);
      var c := WithTarget(b, d, Overlay(m, a, x));
      var sts := StatementsOf(ls, line, sec);
      GrowCursor(sec, |x|);
      assert AreCodeLines(rest);
      TargetAgain(b, d, Overlay(m, a, x), Overlay(Overlay(m, a, x), a + |x|, AllBytes(rest)));
      OverlayJoin(m, a, x, AllBytes(rest));
      assert sts[1..] == StatementsOf(rest, line + 1, Grow(sec, |x|));
      if a + |x| < SIZE {
        LinesEmit(rest, line + 1, Grow(sec, |x|), symbols, c);
      } else {
        NoneLeft(rest);
        OverlayNothing(Overlay(m, a, x), a + |x|);
      }
    }
  }

  lemma NoneLeft(ls: seq<Line>)
    requires AreCodeLines(ls) && |AllBytes(ls)| == 0
    ensures ls == [] && AllBytes(ls) == []
  {
    hide AllBytes;
    if ls != [] {
      BytesPositive(ls);
    }
  }

  /** Emitting the first statement of a run. */
  lemma LineEmits(ls: seq<Line>, line: nat, sec: Section, symbols: map<string, word>, b: Buffers)
    requires AreCodeLines(ls) && ls != [] && Cursor(sec) + |AllBytes(ls)| <= SIZE
    ensures AllBytes(ls) == LineBytes(ls[0]) + AllBytes(ls[1..])
    ensures StatementsOf(ls, line, sec) != []
    ensures EmitStatement(StatementsOf(ls, line, sec)[0], symbols, b)
         == Emitted(WithTarget(b, sec.inData, Overlay(Target(b, sec.inData), Cursor(sec), LineBytes(ls[0]))))
  {
    hide EmitStatement, LineBytes, Grow, Overlay, Target, WithTarget, Meaning, Cursor;
    assert IsCodeLine(ls[0]);
    var st := StatementOf(ls[0], line, sec);
    LinePlaces(ls[0], line, Pass1([], map[], sec), symbols);
    StatementAt(ls[0], line, sec);
    EmitIsOverlay(st, symbols, b);
  }

  lemma StatementAt(l: Line, line: nat, sec: Section)
    requires l.ByteLine? || l.InstrLine?
    ensures StatementOf(l, line, sec).inData == sec.inData && StatementOf(l, line, sec).address == Cursor(sec)
  {
  }
}
