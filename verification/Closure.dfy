/** The toolchain closes: what the assembler writes, the loader accepts and the
    disassembler turns back into source for the same image (docs/DESIGN.md, sections 10 to 12). */
module Closure {
  import opened Words
  import opened Memory
  import opened Isa
  import opened Lexer
  import opened Syntax
  import opened Layout
  import opened Emit
  import opened Disassembler
  import opened Assembler
  import opened RoundTrip
  import Lines
  import Loader
  import Passes

  /** The header and sizes of a written image. */
  lemma WrittenImage(s: Sections)
    requires WriteImage(s).Image?
    ensures var image := WriteImage(s).bytes;
            && Loader.ValidHeader(image)
            && Loader.ReadHeader(image) == HeaderOf(s)
            && |image| == Loader.HEADER_SIZE + s.codeSize + s.dataSize
            && Loader.CodeBytes(image) == Slice(s.buffers.code, s.codeAddr, s.codeSize)
            && Loader.DataBytes(image) == Slice(s.buffers.data, s.dataAddr, s.dataSize)
  {
    hide HeaderBytes, Slice, Loader.ReadHeader;
    var code, data := Slice(s.buffers.code, s.codeAddr, s.codeSize), Slice(s.buffers.data, s.dataAddr, s.dataSize);
    SliceLength(s.buffers.code, s.codeAddr, s.codeSize);
    SliceLength(s.buffers.data, s.dataAddr, s.dataSize);
    var image := WriteImage(s).bytes;
    HeaderReadsBack(HeaderOf(s), code + data);
    assert image == HeaderBytes(HeaderOf(s)) + (code + data);
  }

  lemma SliceLength(m: Bytes, addr: word, size: word)
    requires SliceInside(addr, size)
    ensures |Slice(m, addr, size)| == size
  {
  }

  /** Sections after pass 1 of a program that assembles, and the buffers of pass 2. */
  lemma AssembledSections(items: seq<Item>) returns (p: Pass1, b: Buffers)
    requires AssembleItems(items, 0).Image?
    ensures LayOut(items, NOTHING_PLACED) == Placed(p) && p.section.codeStarted
    ensures EmitAll(p.statements, p.symbols, BlankBuffers()) == Emitted(b)
    ensures AssembleItems(items, 0) == WriteImage(SectionsOf(p.section, b))
  {
    hide LayOut, EmitAll, WriteImage, BlankBuffers;
    p := LayOut(items, NOTHING_PLACED).state;
    b := EmitAll(p.statements, p.symbols, BlankBuffers()).buffers;
  }

  /** Every image the assembler writes has an exact length and its entry point at its code, so the
      disassembler accepts it; and it survives the round trip exactly if it is canonical. */
  lemma AssembledRoundTrip(source: string)
    requires Assemble(source).Image?
    ensures var image := Assemble(source).bytes;
            && Disassemble(image).Source?
            && (Assemble(Disassemble(image).text) == Image(image) <==> Canonical(image))
  {
    hide Assemble, LayOut, EmitAll, WriteImage, ImageLines, PrintAll, Canonical, Items;
    var items := SourceIsItems(source);
    var p, b := AssembledSections(items);
    WrittenImage(SectionsOf(p.section, b));
    var image := Assemble(source).bytes;
    AcceptedByHeader(image);
    RoundTripIffCanonical(image);
  }

  lemma AcceptedByHeader(image: seq<byte>)
    requires Loader.ValidHeader(image) && Loader.ReadHeader(image).entryPoint == Loader.ReadHeader(image).codeAddr
    ensures Disassemble(image).Source?
  {
    hide ImageLines, PrintAll, Loader.ReadHeader;
  }

  /** Sections that start before they end and do not collide make a canonical header. */
  lemma SectionsRebuild(sec: Section, b: Buffers)
    requires Passes.SectionInv(sec) && sec.codeStarted
    ensures Rebuilds(HeaderOf(SectionsOf(sec, b)))
    ensures var h := HeaderOf(SectionsOf(sec, b)); h.dataSize == 0 ==> h.dataAddr == 0
  {
    DifferenceWraps(sec.codeStart, sec.codeCursor);
    if sec.dataStarted {
      DifferenceWraps(sec.dataStart, Passes.Top(sec, true));
    }
    hide Wrap;
  }

  lemma NothingPlacedInv()
    ensures Passes.SectionInv(NOTHING_PLACED.section) && !Passes.Full(NOTHING_PLACED.section)
  {
  }

  /** A program that fits assembles to a canonical image. */
  lemma FittingIsCanonical(items: seq<Item>)
    requires AssembleItems(items, 0).Image? && Passes.Fits(items, NOTHING_PLACED)
    ensures Canonical(AssembleItems(items, 0).bytes)
  {
    hide AssembleItems, LayOut, EmitAll, WriteImage, Passes.Fits, Passes.SectionInv, BlankBuffers,
      Loader.ReadHeader, SectionsOf;
    var p, b := AssembledSections(items);
    NothingPlacedInv();
    Passes.LayOutSection(items, NOTHING_PLACED);
    SectionsRebuild(p.section, b);
    WrittenImage(SectionsOf(p.section, b));
    WrittenEntry(SectionsOf(p.section, b));
  }

  lemma WrittenEntry(s: Sections)
    ensures HeaderOf(s).entryPoint == HeaderOf(s).codeAddr
    ensures HeaderOf(s).codeSize == s.codeSize && HeaderOf(s).dataSize == s.dataSize
  {
  }

  /** Source, image, source, image: for every source whose sections stay below the top of memory, the loader
      accepts the image, the disassembler accepts it, and the second image is the first, byte for byte. */
  lemma LoopCloses(source: string, items: seq<Item>)
    requires Assemble(source).Image?
    requires Lex(source, 1).Tokens? && Items(Lex(source, 1).tokens, LineStart) == Parsed(items)
    requires Passes.Fits(items, NOTHING_PLACED)
    ensures var image := Assemble(source).bytes;
            && Loader.Acceptable(image)
            && Disassemble(image).Source?
            && Assemble(Disassemble(image).text) == Image(image)
  {
    hide Assemble, AssembleItems, LayOut, Items, ImageLines, PrintAll, Canonical, Passes.Fits, Lex;
    var items' := SourceIsItems(source);
    FittingIsCanonical(items);
    var image := Assemble(source).bytes;
    CanonicalIsAccepted(image);
    RoundTripIffCanonical(image);
  }

  // ---- a source the loop does not close on ----

  /** One byte of code at 0xFFFF. */
  const TOP_LINES: seq<Line> := [OrgLine(0xFFFF), ByteLine(1)]

  lemma TopItems() returns (line: nat)
    ensures Assemble(PrintAll(TOP_LINES)) == AssembleItems([OrgItem(1, 0xFFFF), ByteItem(2, 1)], line)
  {
    hide PrintLine, Lex, Items, Build, LayOut, Complete;
    Lines.TextReads(TOP_LINES, 1);
    TopLines();
    var ts := Lex(PrintAll(TOP_LINES), 1).tokens;
    BuildIsLayOut(ts, LineStart, NOTHING_PLACED);
    line := ts[|ts| - 1].line;
  }

  lemma TopLines()
    ensures Lines.AllItems(TOP_LINES, 1) == [OrgItem(1, 0xFFFF), ByteItem(2, 1)]
  {
    var ls := TOP_LINES;
    assert ls[1..] == [ByteLine(1)] && ls[1..][1..] == [];
    assert Lines.AllItems(ls[1..][1..], 3) == [];
    assert Lines.AllItems(ls[1..], 2) == [ByteItem(2, 1)];
  }

  /** Pass 1 puts the byte at 0xFFFF and the code cursor wraps to 0. */
  lemma TopPlaces()
    ensures LayOut([OrgItem(1, 0xFFFF), ByteItem(2, 1)], NOTHING_PLACED)
         == Placed(Pass1([OrgStmt(1), ByteStmt(2, false, 0xFFFF, 1)], map[],
                         AT_ZERO.(codeStarted := true, codeStart := 0xFFFF, codeCursor := 0)))
  {
    var items := [OrgItem(1, 0xFFFF), ByteItem(2, 1)];
    var p1 := Pass1([OrgStmt(1)], map[], AT_ZERO.(codeCursor := 0xFFFF));
    assert [] + [OrgStmt(1)] == [OrgStmt(1)];
    assert Place(items[0], NOTHING_PLACED) == Placed(p1);
    assert items[1..] == [ByteItem(2, 1)] && items[1..][1..] == [];
    assert [OrgStmt(1)] + [ByteStmt(2, false, 0xFFFF, 1)] == [OrgStmt(1), ByteStmt(2, false, 0xFFFF, 1)];
  }

  lemma TopEmits() returns (b: Buffers)
    ensures EmitAll([OrgStmt(1), ByteStmt(2, false, 0xFFFF, 1)], map[], BlankBuffers()) == Emitted(b)
  {
    hide Overlay, BlankBuffers;
    var sts := [OrgStmt(1), ByteStmt(2, false, 0xFFFF, 1)];
    assert sts[1..] == [ByteStmt(2, false, 0xFFFF, 1)];
    b := BlankBuffers().(code := Overlay(BlankBuffers().code, 0xFFFF, [1]));
    OneEmit(ByteStmt(2, false, 0xFFFF, 1), map[], BlankBuffers());
  }

  /** The law is false of some sources: `.org 0xFFFF` and one byte assemble to an image that the loader and
      the disassembler accept, and whose disassembly does not assemble. */
  lemma TopOfMemoryIsLost()
    ensures Assemble(PrintAll(TOP_LINES)).Image?
    ensures var image := Assemble(PrintAll(TOP_LINES)).bytes;
            && Loader.Acceptable(image)
            && Disassemble(image).Source?
            && Assemble(Disassemble(image).text).Failed?
  {
    hide Assemble, LayOut, EmitAll, ImageLines, PrintAll, BlankBuffers, Slice, Loader.ReadHeader, HeaderBytes;
    var line := TopItems();
    TopPlaces();
    var b := TopEmits();
    var s := Sections(b, 0xFFFF, 1, 0, 0);
    var image := WriteImage(s).bytes;
    WrittenImage(s);
    AcceptedByHeader(image);
    Reassembles(image);
  }
}
