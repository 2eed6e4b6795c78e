/** Labels are only names for addresses: writing each label's address in its place,
    and dropping the definitions, gives the same image, whether the references were
    forward or backward (src/assembler/parser.c, pass 1 modes and pass 2 resolution). */
module Labels {
  import opened Words
  import opened Isa
  import opened Syntax
  import opened Layout
  import opened Emit
  import Memory
  import Assembler

  type Table = map<string, word>

  function PlainKind(k: OperandKind, t: Table): OperandKind {
    match k
    case LabelOp(name) => if name in t then NumberOp(t[name]) else k
    case MemLabelOp(name) => if name in t then MemNumberOp(t[name]) else k
    case _ => k
  }

  function PlainOperand(o: ParsedOperand, t: Table): ParsedOperand {
    o.(kind := PlainKind(o.kind, t))
  }

  function PlainOperands(os: seq<ParsedOperand>, t: Table): (r: seq<ParsedOperand>)
    ensures |r| == |os|
    ensures forall i | 0 <= i < |os| :: r[i] == PlainOperand(os[i], t)
  {
    if os == [] then [] else [PlainOperand(os[0], t)] + PlainOperands(os[1..], t)
  }

  function PlainItem(item: Item, t: Table): Item {
    match item
    case InstrItem(line, op, operands) => InstrItem(line, op, PlainOperands(operands, t))
    case WordItem(line, operand) => WordItem(line, PlainOperand(operand, t))
    case _ => item
  }

  /** The program without labels: definitions dropped, references replaced by addresses. */
  function Eliminate(items: seq<Item>, t: Table): seq<Item> {
    if items == [] then []
    else (if items[0].LabelItem? then [] else [PlainItem(items[0], t)]) + Eliminate(items[1..], t)
  }

  function PlainStatement(st: Statement, t: Table): Statement {
    match st
    case InstrStmt(_, _, _, _, operands, _, _) => st.(operands := PlainOperands(operands, t))
    case WordStmt(_, _, _, operand) => st.(operand := PlainOperand(operand, t))
    case _ => st
  }

  function PlainStatements(sts: seq<Statement>, t: Table): seq<Statement> {
    if sts == [] then []
    else
      var n := |sts| - 1;
      PlainStatements(sts[..n], t) + if sts[n].LabelStmt? then [] else [PlainStatement(sts[n], t)]
  }

  function Plain(p: Pass1, t: Table): Pass1 {
    Pass1(PlainStatements(p.statements, t), map[], p.section)
  }

  lemma PlainAppend(sts: seq<Statement>, st: Statement, t: Table)
    ensures PlainStatements(sts + [st], t)
         == PlainStatements(sts, t) + if st.LabelStmt? then [] else [PlainStatement(st, t)]
  {
    hide PlainStatement;
    assert (sts + [st])[..|sts|] == sts;
  }

  // ---- pass 1 ----

  /** A label takes the mode a number would take. */
  lemma SameMode(k: OperandKind, t: Table, mask: ModeMask)
    ensures ResolveMode(PlainKind(k, t), mask) == ResolveMode(k, mask)
  {
  }

  lemma SameModes(line: nat, op: Opcode, operands: seq<ParsedOperand>, t: Table)
    requires InstructionModes(line, op, operands).Modes?
    ensures InstructionModes(line, op, PlainOperands(operands, t)) == InstructionModes(line, op, operands)
  {
    hide LegalModes, ResolveMode, PlainKind, OperandCount;
    var masks := LegalModes(op);
    if |operands| >= 1 {
      SameMode(operands[0].kind, t, masks.0);
    }
    if |operands| >= 2 {
      SameMode(operands[1].kind, t, masks.1);
    }
  }

  lemma InstructionPlain(line: nat, op: Opcode, operands: seq<ParsedOperand>, p: Pass1, t: Table)
    requires PlaceInstruction(line, op, operands, p).Placed?
    ensures PlaceInstruction(line, op, PlainOperands(operands, t), Plain(p, t))
         == Placed(Plain(PlaceInstruction(line, op, operands, p).state, t))
  {
    hide InstructionModes, PlainStatements, PlainOperands, Grow;
    SameModes(line, op, operands, t);
    var q := PlaceInstruction(line, op, operands, p).state;
    PlainAppend(p.statements, q.statements[|p.statements|], t);
  }

  lemma PlacePlain(item: Item, p: Pass1, t: Table)
    requires Place(item, p).Placed?
    ensures item.LabelItem? ==> Plain(Place(item, p).state, t) == Plain(p, t)
    ensures !item.LabelItem? ==> Place(PlainItem(item, t), Plain(p, t)) == Placed(Plain(Place(item, p).state, t))
  {
    hide PlaceInstruction, PlainStatements, Grow, PlainKind;
    if item.InstrItem? {
      InstructionPlain(item.line, item.opcode, item.operands, p, t);
    } else {
      var q := Place(item, p).state;
      PlainAppend(p.statements, q.statements[|p.statements|], t);
    }
  }

  lemma {:induction false} LayOutPlain(items: seq<Item>, p: Pass1, t: Table)
    requires LayOut(items, p).Placed?
    ensures LayOut(Eliminate(items, t), Plain(p, t)) == Placed(Plain(LayOut(items, p).state, t))
    decreases |items|
  {
    hide Place, Plain, PlainItem;
    if items != [] {
      var q := Place(items[0], p).state;
      PlacePlain(items[0], p, t);
      LayOutPlain(items[1..], q, t);
      if items[0].LabelItem? {
        assert Eliminate(items, t) == Eliminate(items[1..], t);
      } else {
        assert Eliminate(items, t)[0] == PlainItem(items[0], t);
        assert Eliminate(items, t)[1..] == Eliminate(items[1..], t);
      }
    }
  }

  // ---- pass 2 ----

  /** A label operand that resolves has the value of the number that replaces it. */
  lemma SameValue(o: ParsedOperand, mode: Mode, t: Table)
    requires OperandValue(o, mode, t).Value?
    ensures OperandValue(PlainOperand(o, t), mode, map[]) == OperandValue(o, mode, t)
  {
    hide InRange;
  }

  lemma EmitPlain(st: Statement, t: Table, b: Buffers)
    requires EmitStatement(st, t, b).Emitted? && !st.LabelStmt?
    ensures EmitStatement(PlainStatement(st, t), map[], b) == EmitStatement(st, t, b)
  {
    hide OperandValue, PutInstruction, Put, PlainOperand, ResolveValue;
    match st {
      case InstrStmt(_, _, _, _, operands, m1, m2) =>
        if |operands| >= 1 {
          SameValue(operands[0], m1, t);
        }
        if |operands| >= 2 {
          SameValue(operands[1], m2, t);
        }
      case WordStmt(_, _, _, operand) => SameWord(operand, t);
      case _ =>
    }
  }

  lemma SameWord(o: ParsedOperand, t: Table)
    requires ResolveValue(o.kind, t).Some?
    ensures ResolveValue(PlainOperand(o, t).kind, map[]) == ResolveValue(o.kind, t)
  {
  }

  lemma {:induction false} EmitAllPlain(sts: seq<Statement>, t: Table, b: Buffers)
    requires EmitAll(sts, t, b).Emitted?
    ensures EmitAll(PlainStatements(sts, t), map[], b) == EmitAll(sts, t, b)
    decreases |sts|
  {
    hide EmitStatement, PlainStatement;
    if sts != [] {
      var n := |sts| - 1;
      var init, st := sts[..n], sts[n];
      assert sts == init + [st];
      EmitAllConcat(init, [st], t, b);
      EmitAllPlain(init, t, b);
      var c := EmitAll(init, t, b).buffers;
      OneEmit(st, t, c);
      if st.LabelStmt? {
        LabelEmitsNothing(st, t, c);
        assert PlainStatements(sts, t) == PlainStatements(init, t);
      } else {
        EmitPlain(st, t, c);
        EmitAllConcat(PlainStatements(init, t), [PlainStatement(st, t)], map[], b);
        OneEmit(PlainStatement(st, t), map[], c);
      }
    }
  }

  lemma LabelEmitsNothing(st: Statement, t: Table, b: Buffers)
    requires st.LabelStmt?
    ensures EmitStatement(st, t, b) == Emitted(b)
  {
  }

  /** For every program that assembles, the program without labels assembles to the same image. A label
      left over in it would be undefined, so none is. */
  lemma EliminationKeepsImage(items: seq<Item>)
    requires Assembler.AssembleItems(items, 0).Image?
    ensures LayOut(items, NOTHING_PLACED).Placed?
    ensures var t := LayOut(items, NOTHING_PLACED).state.symbols;
            Assembler.AssembleItems(Eliminate(items, t), 0) == Assembler.AssembleItems(items, 0)
  {
    hide LayOut, EmitAll, PlainStatements, BlankBuffers, Assembler.WriteImage;
    var p := LayOut(items, NOTHING_PLACED).state;
    var t := p.symbols;
    LayOutPlain(items, NOTHING_PLACED, t);
    PlainStart(t);
    EmitAllPlain(p.statements, t, BlankBuffers());
  }

  lemma PlainStart(t: Table)
    ensures Plain(NOTHING_PLACED, t) == NOTHING_PLACED
  {
  }
}
