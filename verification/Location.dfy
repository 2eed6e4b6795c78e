/** The location counter: what address pass 1 gives every statement and every label, counted
    from the program text (src/assembler/parser.c, parse_line and the statement parsers). */
module Location {
  import opened Words
  import opened Memory
  import opened Isa
  import opened Lexer
  import opened Syntax
  import opened Layout
  import opened Emit
  import opened Passes
  import opened Assembler
  import opened Executable
  import Loader

  /** The counter before item `n`: zero at first, moved to its number by `.org`, past its bytes by every statement
      with bytes, and by nothing else. */
  function Counter(items: seq<Item>, sts: seq<Statement>, n: nat): int
    requires n <= |items| && n <= |sts|
  {
    if n == 0 then 0
    else
      match items[n - 1]
      case OrgItem(_, v) => v
      case LabelItem(_, _) | DataItem(_) => Counter(items, sts, n - 1)
      case _ => Counter(items, sts, n - 1) + Size(sts[n - 1])
  }

  /** The statement an item becomes is of its kind. */
  predicate SameKind(item: Item, st: Statement) {
    match item
    case LabelItem(_, name) => st.LabelStmt? && st.name == name
    case InstrItem(_, op, operands) => st.InstrStmt? && st.opcode == op && st.operands == operands
    case OrgItem(_, _) => st.OrgStmt?
    case DataItem(_) => st.DataStmt?
    case StringItem(_, bytes) => st.StringStmt? && st.bytes == bytes
    case WordItem(_, operand) => st.WordStmt? && st.operand == operand
    case ByteItem(_, v) => st.ByteStmt? && st.value == v
  }

  /** `.data` marks the data section, which is never left. */
  predicate DataMarked(sec: Section) {
    sec.inData ==> sec.dataSeen
  }

  /** What placing one item does: the statement of its kind, at the cursor; a label's name in the table; the cursor. */
  lemma PlaceMoves(item: Item, p: Pass1)
    requires Place(item, p).Placed? && DataMarked(p.section)
    ensures var q := Place(item, p).state;
            && |q.statements| == |p.statements| + 1 && q.statements[..|p.statements|] == p.statements
            && SameKind(item, q.statements[|p.statements|])
            && DataMarked(q.section)
    ensures var q := Place(item, p).state;
            var st := q.statements[|p.statements|];
            && (Sized(st) || st.LabelStmt? ==> st.address == Cursor(p.section))
            && Cursor(q.section) ==
                 if item.OrgItem? then item.value
                 else if item.LabelItem? || item.DataItem? then Cursor(p.section)
                 else Wrap(Cursor(p.section) + Size(st))
    ensures var q := Place(item, p).state;
            if item.LabelItem? then item.name !in p.symbols && q.symbols == p.symbols[item.name := Cursor(p.section)]
            else q.symbols == p.symbols
  {
    hide InstructionModes, PlaceInstruction, Wrap;
    PlacedShape(item, p);
    if item.InstrItem? {
      InstructionPlaced(item.line, item.opcode, item.operands, p);
    }
  }

  /** The state of pass 1 before item `n`. */
  predicate StateBefore(items: seq<Item>, n: nat, q: Pass1)
    requires n <= |items|
  {
    LayOut(items[..n], NOTHING_PLACED) == Placed(q)
  }

  predicate SymbolsKept(before: map<string, word>, after: map<string, word>) {
    forall name | name in before :: name in after && after[name] == before[name]
  }

  /** Later items keep the statements and the symbols already there. */
  lemma {:induction false} LayOutExtends(items: seq<Item>, p: Pass1)
    requires LayOut(items, p).Placed? && DataMarked(p.section)
    ensures var f := LayOut(items, p).state;
            && |f.statements| == |p.statements| + |items|
            && f.statements[..|p.statements|] == p.statements
            && SymbolsKept(p.symbols, f.symbols)
    decreases |items|
  {
    hide Place, SameKind, DataMarked, Cursor, Sized;
    if items != [] {
      PlaceMoves(items[0], p);
      var q := Place(items[0], p).state;
      LayOutExtends(items[1..], q);
      var f := LayOut(items, p).state;
      assert f.statements[..|p.statements|] == f.statements[..|q.statements|][..|p.statements|];
    }
  }

  /** The states of pass 1 along a program: each has the statements so far, and the next comes of placing the
      next item. */
  lemma {:induction false} Prefixes(items: seq<Item>, n: nat) returns (q: Pass1)
    requires LayOut(items, NOTHING_PLACED).Placed? && n <= |items|
    ensures StateBefore(items, n, q) && DataMarked(q.section)
    ensures var f := LayOut(items, NOTHING_PLACED).state;
            && |f.statements| == |items|
            && |q.statements| == n && q.statements == f.statements[..n]
            && SymbolsKept(q.symbols, f.symbols)
            && Cursor(q.section) == Wrap(Counter(items, f.statements, n))
    decreases n
  {
    hide Place, SameKind, Sized, Wrap;
    var f := LayOut(items, NOTHING_PLACED).state;
    StartMarked();
    LayOutExtends(items, NOTHING_PLACED);
    if n == 0 {
      assert items[..0] == [];
      q := NOTHING_PLACED;
    } else {
      var p := Prefixes(items, n - 1);
      q := NextState(items, n - 1, p);
      PlaceMoves(items[n - 1], p);
      assert q.statements[n - 1] == f.statements[..n][n - 1];
      CounterStep(items, f.statements, n);
      WrapAdd(Counter(items, f.statements, n - 1), Size(f.statements[n - 1]));
      if items[n - 1].OrgItem? {
        WrapSmall(items[n - 1].value);
      }
    }
  }

  lemma StartMarked()
    ensures DataMarked(NOTHING_PLACED.section) && Cursor(NOTHING_PLACED.section) == Wrap(0)
  {
  }

  /** Placing item `n` takes the state before it to the state after it. */
  lemma NextState(items: seq<Item>, n: nat, p: Pass1) returns (q: Pass1)
    requires LayOut(items, NOTHING_PLACED).Placed? && n < |items|
    requires StateBefore(items, n, p) && DataMarked(p.section)
    ensures Place(items[n], p) == Placed(q)
    ensures StateBefore(items, n + 1, q) && DataMarked(q.section)
    ensures var f := LayOut(items, NOTHING_PLACED).state;
            && |f.statements| == |q.statements| + (|items| - n - 1)
            && q.statements == f.statements[..|q.statements|] && SymbolsKept(q.symbols, f.symbols)
  {
    hide Place, SameKind, Sized, Cursor, DataMarked, SymbolsKept;
    assert items == items[..n] + items[n..];
    LayOutConcat(items[..n], items[n..], NOTHING_PLACED);
    assert items[n..][0] == items[n] && items[n..][1..] == items[n + 1..];
    q := Place(items[n], p).state;
    PlaceMoves(items[n], p);
    LayOutExtends(items[n + 1..], q);
    assert items[..n + 1] == items[..n] + [items[n]];
    LayOutConcat(items[..n], [items[n]], NOTHING_PLACED);
    assert [items[n]][1..] == [];
  }

  lemma CounterStep(items: seq<Item>, sts: seq<Statement>, n: nat)
    requires 0 < n <= |items| && n <= |sts|
    ensures Counter(items, sts, n) ==
              if items[n - 1].OrgItem? then items[n - 1].value
              else if items[n - 1].LabelItem? || items[n - 1].DataItem? then Counter(items, sts, n - 1)
              else Counter(items, sts, n - 1) + Size(sts[n - 1])
  {
    hide Size;
  }

  /** For every program pass 1 accepts: every statement with bytes, and every label, has the counter before it as its
      address; and the table has exactly the labels, each with that address. */
  lemma AddressesAreCounted(items: seq<Item>, i: nat)
    requires LayOut(items, NOTHING_PLACED).Placed? && i < |items|
    ensures var f := LayOut(items, NOTHING_PLACED).state;
            && |f.statements| == |items| && SameKind(items[i], f.statements[i])
            && var st, here := f.statements[i], Wrap(Counter(items, f.statements, i));
            && (Sized(st) || st.LabelStmt? ==> st.address == here)
            && (items[i].LabelItem? ==> items[i].name in f.symbols && f.symbols[items[i].name] == here)
  {
    hide Place, Sized, Cursor, Counter, Wrap, StateBefore;
    var p := Prefixes(items, i);
    var q := NextState(items, i, p);
    PlaceMoves(items[i], p);
    var f := LayOut(items, NOTHING_PLACED).state;
    assert q.statements[i] == f.statements[..i + 1][i];
    hide SameKind, LayOut;
    if items[i].LabelItem? {
      assert items[i].name in q.symbols;
    }
  }

  lemma {:induction false} SymbolsAreLabels(items: seq<Item>, n: nat, name: string)
    requires LayOut(items, NOTHING_PLACED).Placed? && n <= |items|
    ensures LayOut(items[..n], NOTHING_PLACED).Placed?
    ensures name in LayOut(items[..n], NOTHING_PLACED).state.symbols
            <==> exists i | 0 <= i < n :: items[i].LabelItem? && items[i].name == name
    decreases n
  {
    hide Place, SameKind, Sized, Cursor, Wrap, Counter;
    if n == 0 {
      assert items[..0] == [];
    } else {
      var p := Prefixes(items, n - 1);
      var q := NextState(items, n - 1, p);
      PlaceMoves(items[n - 1], p);
      SymbolsAreLabels(items, n - 1, name);
    }
  }

  /** Every label is defined once. */
  lemma LabelsAreUnique(items: seq<Item>, i: nat, j: nat)
    requires LayOut(items, NOTHING_PLACED).Placed? && i < j < |items|
    requires items[i].LabelItem? && items[j].LabelItem?
    ensures items[i].name != items[j].name
  {
    hide Place, SameKind, Sized, Cursor, Wrap, Counter;
    var p := Prefixes(items, j);
    var q := NextState(items, j, p);
    PlaceMoves(items[j], p);
    SymbolsAreLabels(items, j, items[i].name);
  }

  /** Only labels stand from `i` up to `j`. */
  predicate LabelsBetween(items: seq<Item>, i: nat, j: nat) {
    i <= j <= |items| && forall k | i <= k < j :: items[k].LabelItem?
  }

  lemma {:induction false} CounterOverLabels(items: seq<Item>, sts: seq<Statement>, i: nat, j: nat)
    requires LabelsBetween(items, i, j) && j <= |sts|
    ensures Counter(items, sts, j) == Counter(items, sts, i)
    decreases j
  {
    if i < j {
      CounterStep(items, sts, j);
      CounterOverLabels(items, sts, i, j - 1);
    }
  }

  /** A label stands for the address of the statement written after it, other labels apart. */
  lemma LabelIsNextStatement(items: seq<Item>, i: nat, j: nat)
    requires LayOut(items, NOTHING_PLACED).Placed?
    requires i < j < |items| && LabelsBetween(items, i, j)
    ensures var f := LayOut(items, NOTHING_PLACED).state;
            && |f.statements| == |items| && items[i].name in f.symbols
            && (Sized(f.statements[j]) ==> f.symbols[items[i].name] == f.statements[j].address)
  {
    hide LayOut, Counter, Wrap, SameKind, Sized;
    var f := LayOut(items, NOTHING_PLACED).state;
    AddressesAreCounted(items, i);
    AddressesAreCounted(items, j);
    CounterOverLabels(items, f.statements, i, j);
  }

  /** A label stands for the address just past the statement written before it, other labels and `.data` apart. */
  lemma LabelIsEndOfPrevious(items: seq<Item>, h: nat, i: nat)
    requires LayOut(items, NOTHING_PLACED).Placed?
    requires h < i < |items| && items[i].LabelItem?
    requires forall k | h < k < i :: items[k].LabelItem? || items[k].DataItem?
    ensures var f := LayOut(items, NOTHING_PLACED).state;
            && |f.statements| == |items| && items[i].name in f.symbols
            && (Sized(f.statements[h]) ==>
                  f.symbols[items[i].name] == Wrap(f.statements[h].address + Size(f.statements[h])))
  {
    hide LayOut, Counter, Wrap, Sized;
    var f := LayOut(items, NOTHING_PLACED).state;
    AddressesAreCounted(items, h);
    AddressesAreCounted(items, i);
    CounterFrom(items, f.statements, h + 1, i);
    CounterStep(items, f.statements, h + 1);
    if Sized(f.statements[h]) {
      SizedItem(items[h], f.statements[h]);
      WrapAdd(Counter(items, f.statements, h), Size(f.statements[h]));
    }
  }

  lemma SizedItem(item: Item, st: Statement)
    requires SameKind(item, st) && Sized(st)
    ensures !item.OrgItem? && !item.LabelItem? && !item.DataItem?
  {
  }

  lemma {:induction false} CounterFrom(items: seq<Item>, sts: seq<Statement>, i: nat, j: nat)
    requires i <= j <= |items| && j <= |sts|
    requires forall k | i <= k < j :: items[k].LabelItem? || items[k].DataItem?
    ensures Counter(items, sts, j) == Counter(items, sts, i)
    decreases j
  {
    if i < j {
      CounterStep(items, sts, j);
      CounterFrom(items, sts, i, j - 1);
    }
  }

  /** A label with nothing but labels after it stands for the end of its section. */
  lemma LabelIsEnd(items: seq<Item>, i: nat)
    requires LayOut(items, NOTHING_PLACED).Placed?
    requires i < |items| && LabelsBetween(items, i, |items|)
    ensures var f := LayOut(items, NOTHING_PLACED).state;
            items[i].name in f.symbols && f.symbols[items[i].name] == Cursor(f.section)
  {
    hide Counter, Wrap, SameKind, Sized, Cursor, Place, LayOut;
    var f := LayOut(items, NOTHING_PLACED).state;
    AddressesAreCounted(items, i);
    var q := Prefixes(items, |items|);
    assert items[..|items|] == items;
    CounterOverLabels(items, f.statements, i, |items|);
  }

  // ---- labels in the loaded machine ----

  /** The items a source reads as. */
  function ItemsOf(source: string): seq<Item>
    requires Lex(source, 1).Tokens? && Items(Lex(source, 1).tokens, LineStart).Parsed?
  {
    Items(Lex(source, 1).tokens, LineStart).items
  }

  /** In the statements of a source: a label, and the instruction written after it. */
  predicate Labels(p: Pass1, i: nat, j: nat) {
    && i < j < |p.statements| && p.statements[j].InstrStmt?
    && forall k | i <= k < j :: p.statements[k].LabelStmt?
  }

  lemma LabelAddress(source: string, p: Pass1, i: nat, j: nat)
    requires LaidOutAs(source, p) && Labels(p, i, j)
    ensures p.statements[i].name in p.symbols && p.symbols[p.statements[i].name] == p.statements[j].address
  {
    hide Lex, Items, LayOut, Fits;
    var items := ItemsOf(source);
    forall k | i <= k <= j && k < |items| ensures |p.statements| == |items| && SameKind(items[k], p.statements[k]) {
      AddressesAreCounted(items, k);
    }
    StatementCount(items);
    LabelIsNextStatement(items, i, j);
  }

  lemma StatementCount(items: seq<Item>)
    requires LayOut(items, NOTHING_PLACED).Placed?
    ensures |LayOut(items, NOTHING_PLACED).state.statements| == |items|
  {
    hide LayOut, Counter, Cursor;
    var _ := Prefixes(items, 0);
  }

  /** In the loaded machine, decoding at a label's address gives the instruction written after the label. */
  lemma LabelDecodes(source: string, p: Pass1, i: nat, j: nat)
    requires LaidOutAs(source, p) && Assemble(source).Image? && Labels(p, i, j)
    ensures var st := p.statements[j];
            && p.statements[i].name in p.symbols
            && Loader.Acceptable(Assemble(source).bytes)
            && FirstValue(st, p.symbols).Value? && SecondValue(st, p.symbols).Value?
            && Decode(Loader.LoadedMemory(Assemble(source).bytes), p.symbols[p.statements[i].name])
               == Decoded(Denotes(st, FirstValue(st, p.symbols).v, SecondValue(st, p.symbols).v),
                          Wrap(st.address + Size(st)))
  {
    hide LaidOutAs, Assemble, Decode, Wrap, Loader.LoadedMemory, Loader.Acceptable, FirstValue, SecondValue, Size;
    LabelAddress(source, p, i, j);
    LoadedInstructionDecodes(source, p, j);
  }

  /** A jump or CALL to a label, before or after it: decoded in the loaded machine, its target is the address where
      the instruction written after the label is decoded. */
  lemma JumpReachesLabel(source: string, p: Pass1, k: nat, i: nat, j: nat)
    requires LaidOutAs(source, p) && Assemble(source).Image? && Labels(p, i, j)
    requires k < |p.statements| && p.statements[k].InstrStmt? && |p.statements[k].operands| == 1
    requires p.statements[k].operands[0].kind == LabelOp(p.statements[i].name)
    ensures Loader.Acceptable(Assemble(source).bytes)
    ensures var m := Loader.LoadedMemory(Assemble(source).bytes);
            var jump := Decode(m, p.statements[k].address);
            && jump.Decoded? && jump.instr.opcode == p.statements[k].opcode
            && jump.instr.op1.value == p.statements[j].address
            && Decode(m, jump.instr.op1.value).Decoded?
            && Decode(m, jump.instr.op1.value).instr.opcode == p.statements[j].opcode
  {
    hide LaidOutAs, Assemble, Decode, Loader.LoadedMemory, Loader.Acceptable, Size;
    LabelAddress(source, p, i, j);
    LabelDecodes(source, p, i, j);
    LoadedInstructionDecodes(source, p, k);
    WrapSmall(p.symbols[p.statements[i].name]);
  }
}
