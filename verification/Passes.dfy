/** The two passes agree: pass 2 writes each statement's bytes exactly where pass 1
    put it, nothing else is written, and everything lies in the emitted slices
    (src/assembler/parser.c, pass 1 addresses against emit_statement). */
module Passes {
  import opened Words
  import opened Memory
  import opened Isa
  import opened Syntax
  import opened Layout
  import opened Emit
  import Assembler

  // ---- programs whose counters do not wrap ----

  /** One past the last address of a section; the 16-bit data cursor reads 0 when that is 0x10000. */
  function Top(sec: Section, inData: bool): nat {
    if !inData then sec.codeCursor
    else if sec.dataStarted && sec.dataCursor == 0 then SIZE
    else sec.dataCursor
  }

  function Start(sec: Section, inData: bool): word {
    if inData then sec.dataStart else sec.codeStart
  }

  /** The data section has reached the top of memory. */
  predicate Full(sec: Section) {
    sec.dataStarted && sec.dataCursor == 0
  }

  predicate OnlyLabels(items: seq<Item>) {
    forall i | 0 <= i < |items| :: items[i].LabelItem?
  }

  /** The number of bytes placing an item has added. */
  function AddedSize(p: Pass1, q: Pass1): nat {
    if |q.statements| == |p.statements| + 1 then Size(q.statements[|p.statements|]) else 0
  }

  /** No statement runs past 0xFFFF, except that the last data item may end at the very top of memory. */
  predicate Fits(items: seq<Item>, p: Pass1)
    decreases |items|
  {
    items != [] && Place(items[0], p).Placed? ==>
      var q := Place(items[0], p).state;
      var end := Cursor(p.section) + AddedSize(p, q);
      && (end <= 0xFFFF || (end == SIZE && p.section.inData && OnlyLabels(items[1..])))
      && Fits(items[1..], q)
  }

  // ---- the sections after pass 1 ----

  predicate SectionInv(sec: Section) {
    && (sec.codeStarted ==> sec.codeStart < sec.codeCursor)
    && (!sec.dataStarted ==> sec.dataStart == 0)
    && (!sec.inData ==> !sec.dataStarted && !sec.dataSeen && sec.dataCursor == 0)
    && (sec.inData ==> sec.dataSeen)
    && (sec.dataStarted ==> sec.codeCursor <= sec.dataStart && sec.dataStart < Top(sec, true))
    && (sec.inData && !sec.dataStarted ==> sec.codeCursor <= sec.dataCursor)
  }

  /** Placing an instruction, when it succeeds, appends one statement of at least two bytes. */
  lemma InstructionPlaced(line: nat, op: Opcode, operands: seq<ParsedOperand>, p: Pass1)
    requires PlaceInstruction(line, op, operands, p).Placed?
    ensures exists m1: Mode, m2: Mode ::
              PlaceInstruction(line, op, operands, p).state
              == Append(p, InstrStmt(line, p.section.inData, Cursor(p.section), op, operands, m1, m2))
  {
    hide Append, InstructionModes;
  }

  /** The statement an item becomes. */
  predicate AppendsAtCursor(p: Pass1, q: Pass1, st: Statement) {
    && Sized(st) && st.inData == p.section.inData && st.address == Cursor(p.section)
    && q == Append(p, st)
  }

  lemma PlacedShape(item: Item, p: Pass1)
    requires Place(item, p).Placed?
    ensures var q := Place(item, p).state;
            && |q.statements| == |p.statements| + 1
            && q.statements[..|p.statements|] == p.statements
            && var st := q.statements[|p.statements|];
            if item.LabelItem? || item.OrgItem? || item.DataItem? then !Sized(st) && Size(st) == 0
            else AppendsAtCursor(p, q, st)
  {
    hide InstructionModes, Grow;
    if item.InstrItem? {
      InstructionPlaced(item.line, item.opcode, item.operands, p);
    }
  }

  lemma PlaceKeepsSection(item: Item, p: Pass1)
    requires Place(item, p).Placed? && SectionInv(p.section)
    requires item.LabelItem? || !Full(p.section)
    requires var end := Cursor(p.section) + AddedSize(p, Place(item, p).state);
             end <= 0xFFFF || (end == SIZE && p.section.inData)
    ensures SectionInv(Place(item, p).state.section)
    ensures Full(Place(item, p).state.section) ==>
              Full(p.section) || Cursor(p.section) + AddedSize(p, Place(item, p).state) == SIZE
    ensures item.LabelItem? ==> Place(item, p).state.section == p.section
  {
    hide PlaceInstruction;
    PlacedShape(item, p);
    var q := Place(item, p).state;
    var st := q.statements[|p.statements|];
    if Sized(st) {
      SizedIsPositive(st);
      GrowKeepsSection(p.section, Size(st));
    }
  }

  lemma SizedIsPositive(st: Statement)
    requires Sized(st)
    ensures Size(st) >= 1
  {
  }

  lemma GrowKeepsSection(sec: Section, n: nat)
    requires SectionInv(sec) && !Full(sec) && n >= 1
    requires Cursor(sec) + n <= 0xFFFF || (Cursor(sec) + n == SIZE && sec.inData)
    ensures SectionInv(Grow(sec, n))
    ensures Full(Grow(sec, n)) ==> Cursor(sec) + n == SIZE
    ensures Top(Grow(sec, n), sec.inData) == Cursor(sec) + n
    ensures Top(Grow(sec, n), !sec.inData) == Top(sec, !sec.inData)
    ensures Start(Grow(sec, n), sec.inData) <= Cursor(sec)
    ensures (if sec.inData then sec.dataStarted else sec.codeStarted) ==>
              Start(Grow(sec, n), sec.inData) == Start(sec, sec.inData)
  {
  }

  /** A program that fits leaves sections that start before they end, data above code. */
  lemma {:induction false} LayOutSection(items: seq<Item>, p: Pass1)
    requires LayOut(items, p).Placed? && SectionInv(p.section) && Fits(items, p)
    requires Full(p.section) ==> OnlyLabels(items)
    ensures SectionInv(LayOut(items, p).state.section)
    decreases |items|
  {
    hide Place, SectionInv, Full, Cursor, AddedSize;
    if items != [] {
      var q := Place(items[0], p).state;
      PlaceKeepsSection(items[0], p);
      LayOutSection(items[1..], q);
    }
  }

  // ---- where statements lie ----

  predicate Started(sec: Section, inData: bool) {
    if inData then sec.dataStarted else sec.codeStarted
  }

  /** The statement's interval is within its section. */
  predicate Inside(st: Statement, sec: Section) {
    Sized(st) ==>
      && Started(sec, st.inData)
      && Start(sec, st.inData) <= st.address
      && st.address + Size(st) <= Top(sec, st.inData)
  }

  /** Two statements of one section: the first ends at or before the start of the second. */
  predicate Before(s: Statement, t: Statement) {
    Sized(s) && Sized(t) && s.inData == t.inData ==> s.address + Size(s) <= t.address
  }

  predicate Placement(sts: seq<Statement>, sec: Section) {
    && (forall i | 0 <= i < |sts| :: Inside(sts[i], sec))
    && (forall i, j | 0 <= i < j < |sts| :: Before(sts[i], sts[j]))
  }

  /** A section that has only grown at its end. */
  predicate GrewTo(sec: Section, sec': Section) {
    forall d: bool ::
      && Top(sec, d) <= Top(sec', d)
      && (Started(sec, d) ==> Started(sec', d) && Start(sec', d) == Start(sec, d))
  }

  lemma InsideGrows(st: Statement, sec: Section, sec': Section)
    requires Inside(st, sec) && GrewTo(sec, sec')
    ensures Inside(st, sec')
  {
    if Sized(st) {
      var d := st.inData;
      assert Top(sec, d) <= Top(sec', d);
    }
  }

  lemma GrowGrows(sec: Section, n: nat)
    requires SectionInv(sec) && !Full(sec) && n >= 1
    requires Cursor(sec) + n <= 0xFFFF || (Cursor(sec) + n == SIZE && sec.inData)
    ensures GrewTo(sec, Grow(sec, n))
    ensures Started(Grow(sec, n), sec.inData) && Start(Grow(sec, n), sec.inData) <= Cursor(sec)
    ensures Top(sec, sec.inData) == Cursor(sec) && Top(Grow(sec, n), sec.inData) == Cursor(sec) + n
  {
    GrowKeepsSection(sec, n);
  }

  lemma UnsizedGrows(item: Item, p: Pass1)
    requires Place(item, p).Placed? && SectionInv(p.section)
    requires item.LabelItem? || !Full(p.section)
    requires item.LabelItem? || item.OrgItem? || item.DataItem?
    ensures GrewTo(p.section, Place(item, p).state.section)
  {
  }

  lemma PlaceKeepsPlacement(item: Item, p: Pass1)
    requires Place(item, p).Placed? && SectionInv(p.section) && Placement(p.statements, p.section)
    requires item.LabelItem? || !Full(p.section)
    requires var end := Cursor(p.section) + AddedSize(p, Place(item, p).state);
             end <= 0xFFFF || (end == SIZE && p.section.inData)
    ensures Placement(Place(item, p).state.statements, Place(item, p).state.section)
  {
    hide Place, SectionInv, Full, Cursor, Grow, Top, Start, Started;
    PlacedShape(item, p);
    var q := Place(item, p).state;
    var n := |p.statements|;
    var st := q.statements[n];
    if Sized(st) {
      SizedIsPositive(st);
      GrowGrows(p.section, Size(st));
    } else {
      PlacedUnsized(item, p);
      UnsizedGrows(item, p);
    }
    forall i | 0 <= i < n ensures q.statements[i] == p.statements[i] && Inside(q.statements[i], q.section) {
      assert q.statements[..n][i] == p.statements[i];
      InsideGrows(p.statements[i], p.section, q.section);
    }
    forall i | 0 <= i < n ensures Before(q.statements[i], st) {
      assert Inside(p.statements[i], p.section);
    }
    assert Inside(st, q.section);
    hide Inside, Before;
  }

  lemma PlacedUnsized(item: Item, p: Pass1)
    requires Place(item, p).Placed?
    requires !Sized(Place(item, p).state.statements[|Place(item, p).state.statements| - 1])
    requires |Place(item, p).state.statements| == |p.statements| + 1
    ensures item.LabelItem? || item.OrgItem? || item.DataItem?
  {
    PlacedShape(item, p);
    hide Place;
  }

  /** In a program that fits, the statements of each section occupy increasing, disjoint intervals
      between the section's start and its end. */
  lemma {:induction false} LayOutPlacement(items: seq<Item>, p: Pass1)
    requires LayOut(items, p).Placed? && SectionInv(p.section) && Fits(items, p)
    requires Placement(p.statements, p.section)
    requires Full(p.section) ==> OnlyLabels(items)
    ensures Placement(LayOut(items, p).state.statements, LayOut(items, p).state.section)
    decreases |items|
  {
    hide Place, SectionInv, Placement, Full, Cursor, AddedSize;
    if items != [] {
      var q := Place(items[0], p).state;
      PlaceKeepsSection(items[0], p);
      PlaceKeepsPlacement(items[0], p);
      LayOutPlacement(items[1..], q);
    }
  }

  // ---- what pass 2 leaves in the buffers ----

  predicate Covers(st: Statement, inData: bool, a: word) {
    Sized(st) && st.inData == inData && st.address <= a < st.address + Size(st)
  }

  /** Every statement's bytes stand at its address. */
  predicate Holds(st: Statement, symbols: map<string, word>, b: Buffers) {
    Sized(st) ==>
      Meaning(st, symbols).Encoded? &&
      forall a: word | Covers(st, st.inData, a) ::
        Target(b, st.inData)[a] == Meaning(st, symbols).bytes[a - st.address]
  }

  predicate Untouched(sts: seq<Statement>, b: Buffers) {
    forall d: bool, a: word | (forall i | 0 <= i < |sts| :: !Covers(sts[i], d, a)) :: Target(b, d)[a] == 0
  }

  predicate AllHold(sts: seq<Statement>, symbols: map<string, word>, b: Buffers) {
    forall i | 0 <= i < |sts| :: Holds(sts[i], symbols, b)
  }

  /** The buffers differ only where the statement lies. */
  lemma EmitChanges(st: Statement, symbols: map<string, word>, b: Buffers)
    requires Sized(st) ==> st.address + Size(st) <= SIZE
    requires EmitStatement(st, symbols, b).Emitted?
    ensures var c := EmitStatement(st, symbols, b).buffers;
            && Holds(st, symbols, c)
            && forall d: bool, a: word | !Covers(st, d, a) :: Target(c, d)[a] == Target(b, d)[a]
  {
    hide Meaning, Overlay, Size;
    var c := EmitStatement(st, symbols, b).buffers;
    if Sized(st) {
      hide EmitStatement;
      EmitIsOverlay(st, symbols, b);
      var bytes := Meaning(st, symbols).bytes;
      var m := Target(b, st.inData);
      forall a: word ensures Overlay(m, st.address, bytes)[a]
          == if st.address <= a < st.address + Size(st) then bytes[a - st.address] else m[a] {
        OverlayAt(m, st.address, bytes, a);
      }
    }
  }

  lemma LaterKeeps(s: Statement, t: Statement, symbols: map<string, word>, b: Buffers, c: Buffers)
    requires Holds(s, symbols, b) && Before(s, t)
    requires forall d: bool, a: word | !Covers(t, d, a) :: Target(c, d)[a] == Target(b, d)[a]
    ensures Holds(s, symbols, c)
  {
    hide Meaning;
    if Sized(s) {
      forall a: word | Covers(s, s.inData, a)
        ensures Target(c, s.inData)[a] == Meaning(s, symbols).bytes[a - s.address] {
        assert !Covers(t, s.inData, a);
      }
    }
  }

  lemma ZeroIsUntouched()
    ensures Untouched([], BlankBuffers())
  {
  }

  /** Pass 2 over statements laid out without overlap: each one's bytes are at its address, and every
      byte no statement covers is still zero. */
  lemma {:induction false} EmitAllWrites(sts: seq<Statement>, symbols: map<string, word>)
    requires forall i | 0 <= i < |sts| :: Sized(sts[i]) ==> sts[i].address + Size(sts[i]) <= SIZE
    requires forall i, j | 0 <= i < j < |sts| :: Before(sts[i], sts[j])
    requires EmitAll(sts, symbols, BlankBuffers()).Emitted?
    ensures var b := EmitAll(sts, symbols, BlankBuffers()).buffers;
            AllHold(sts, symbols, b) && Untouched(sts, b)
    decreases |sts|
  {
    hide EmitStatement, Meaning, BlankBuffers, Before, Holds, Size, Untouched;
    if sts == [] {
      ZeroIsUntouched();
    } else {
      var n := |sts| - 1;
      var init, st := sts[..n], sts[n];
      assert sts == init + [st];
      EmitAllConcat(init, [st], symbols, BlankBuffers());
      EmitAllWrites(init, symbols);
      var b := EmitAll(init, symbols, BlankBuffers()).buffers;
      OneEmit(st, symbols, b);
      EmitChanges(st, symbols, b);
      var c := EmitStatement(st, symbols, b).buffers;
      forall i | 0 <= i < n ensures Holds(sts[i], symbols, c) {
        assert init[i] == sts[i];
        assert Before(sts[i], sts[n]);
        LaterKeeps(sts[i], st, symbols, b, c);
      }
      UntouchedGrows(init, st, b, c);
    }
  }

  lemma UntouchedGrows(sts: seq<Statement>, st: Statement, b: Buffers, c: Buffers)
    requires Untouched(sts, b)
    requires forall d: bool, a: word | !Covers(st, d, a) :: Target(c, d)[a] == Target(b, d)[a]
    ensures Untouched(sts + [st], c)
  {
    hide Covers, Target;
    var all := sts + [st];
    forall d: bool, a: word | (forall i | 0 <= i < |all| :: !Covers(all[i], d, a)) ensures Target(c, d)[a] == 0 {
      assert all[|sts|] == st;
      forall i | 0 <= i < |sts| ensures !Covers(sts[i], d, a) {
        assert all[i] == sts[i];
      }
    }
  }

  /** For every program that fits and assembles: the statements' intervals are disjoint and increasing in
      each section and lie inside the emitted slice; pass 2 writes each statement's bytes exactly there;
      and every other byte of the two buffers is zero. */
  lemma PassesAgree(items: seq<Item>)
    requires LayOut(items, NOTHING_PLACED).Placed? && Fits(items, NOTHING_PLACED)
    requires var p := LayOut(items, NOTHING_PLACED).state;
             EmitAll(p.statements, p.symbols, BlankBuffers()).Emitted?
    ensures var p := LayOut(items, NOTHING_PLACED).state;
            var b := EmitAll(p.statements, p.symbols, BlankBuffers()).buffers;
            && SectionInv(p.section)
            && Placement(p.statements, p.section)
            && AllHold(p.statements, p.symbols, b)
            && Untouched(p.statements, b)
  {
    hide LayOut, Fits, EmitAll, AllHold, Untouched, BlankBuffers;
    LayOutSection(items, NOTHING_PLACED);
    LayOutPlacement(items, NOTHING_PLACED);
    var p := LayOut(items, NOTHING_PLACED).state;
    forall i | 0 <= i < |p.statements| && Sized(p.statements[i])
      ensures p.statements[i].address + Size(p.statements[i]) <= SIZE {
      assert Inside(p.statements[i], p.section);
    }
    EmitAllWrites(p.statements, p.symbols);
  }
}
