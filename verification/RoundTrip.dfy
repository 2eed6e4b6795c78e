/** Assembling a disassembly: exactly which images come back byte for byte
    (include/bytevm/disassembler.h, the round-trip guarantee). */
module RoundTrip {
  import opened Options
  import opened Words
  import opened Memory
  import opened Isa
  import opened Text
  import opened Lexer
  import opened Syntax
  import opened Layout
  import opened Emit
  import opened Disassembler
  import opened Lines
  import opened Reassembly
  import opened Assembler
  import Loader

  // ---- the images that come back ----

  /** Regions that the sweep and the assembler can both handle. */
  predicate Rebuilds(h: Loader.Header) {
    && h.codeSize >= 1 && h.CodeEnd() <= 0xFFFF
    && (h.dataSize > 0 ==> h.CodeEnd() <= h.dataAddr && h.DataEnd() <= SIZE)
  }

  /** An image as the assembler writes them: header and regions as `Rebuilds` says, the entry point at the
      code, no byte past the data, and no data address without data. */
  predicate Canonical(image: seq<byte>) {
    && Loader.ValidHeader(image)
    && var h := Loader.ReadHeader(image);
    && h.entryPoint == h.codeAddr
    && Rebuilds(h)
    && |image| == Loader.HEADER_SIZE + h.codeSize + h.dataSize
    && (h.dataSize == 0 ==> h.dataAddr == 0)
  }

  // ---- the lines of an image as items ----

  lemma {:induction false} AllItemsConcat(a: seq<Line>, b: seq<Line>, line: nat)
    ensures AllItems(a + b, line) == AllItems(a, line) + AllItems(b, line + |a|)
    decreases |a|
  {
    hide LineItems;
    if a == [] {
      assert a + b == b;
    } else {
      assert (a + b)[1..] == a[1..] + b;
      AllItemsConcat(a[1..], b, line + 1);
    }
  }

  lemma HeadingItems(h: Loader.Header, line: nat)
    ensures |Heading(h)| == 3 && AllItems(Heading(h), line) == []
  {
    hide Decimal, Address;
    var ls := Heading(h);
    assert ls[1..] == [ls[1], ls[2]] && ls[1..][1..] == [ls[2]] && ls[1..][1..][1..] == [];
    assert AllItems(ls[1..][1..][1..], line + 3) == [];
    assert AllItems(ls[1..][1..], line + 2) == [];
    assert AllItems(ls[1..], line + 1) == [];
  }

  lemma DecimalIsComment(n: nat)
    ensures AllIn(Decimal(n), CommentChar)
  {
    hide Decimal;
    Printing.DecimalDigits(n);
  }

  lemma HexIsComment(a: word)
    ensures AllIn(Address(a), CommentChar)
  {
    hide Hex, NumeralValue;
    Printing.Widths();
    HexReads(a, 4);
    var h := Hex(a, 4);
    forall i | 0 <= i < |Address(a)| ensures In(Address(a)[i], CommentChar) {
      if i >= 2 {
        assert Address(a)[i] == h[i - 2];
        assert In(h[i - 2], HexDigit);
      }
    }
  }

  lemma CommentConcat(a: string, b: string)
    requires AllIn(a, CommentChar) && AllIn(b, CommentChar)
    ensures AllIn(a + b, CommentChar)
  {
    hide In;
    forall i | 0 <= i < |a + b| ensures In((a + b)[i], CommentChar) {
      assert (a + b)[i] == if i < |a| then a[i] else b[i - |a|];
    }
  }

  lemma RegionComment(size: word, addr: word)
    ensures AllIn(Region(size, addr), CommentChar)
  {
    hide Decimal, Address;
    DecimalIsComment(size);
    HexIsComment(addr);
    assert AllIn(" bytes at ", CommentChar);
    hide AllIn;
    CommentConcat(" bytes at ", Address(addr));
    CommentConcat(Decimal(size), " bytes at " + Address(addr));
  }

  lemma RegionsComment(h: Loader.Header)
    ensures AllIn(Regions(h), CommentChar)
  {
    hide Region;
    assert AllIn(" code: ", CommentChar) && AllIn(", data: ", CommentChar) && AllIn("", CommentChar);
    hide AllIn;
    RegionComment(h.codeSize, h.codeAddr);
    RegionComment(h.dataSize, h.dataAddr);
    CommentConcat(" code: ", Region(h.codeSize, h.codeAddr));
    CommentConcat(", data: ", Region(h.dataSize, h.dataAddr));
    CommentConcat(" code: " + Region(h.codeSize, h.codeAddr), DataRegion(h));
  }

  lemma HeadingPrintable(h: Loader.Header)
    ensures AllPrintable(Heading(h))
  {
    hide Regions, AllIn;
    RegionsComment(h);
    BannerComment();
  }

  lemma BannerComment()
    ensures AllIn(" disassembled from a .bvm image", CommentChar)
  {
  }

  lemma {:induction false} ByteLinesAreCode(bytes: seq<byte>)
    ensures AreCodeLines(ByteLines(bytes)) && AllBytes(ByteLines(bytes)) == bytes
    ensures forall i | 0 <= i < |ByteLines(bytes)| :: ByteLines(bytes)[i].ByteLine?
  {
    if bytes != [] {
      ByteLinesAreCode(bytes[1..]);
    }
  }

  lemma ConcatPrintable(a: seq<Line>, b: seq<Line>)
    requires AllPrintable(a) && AllPrintable(b)
    ensures AllPrintable(a + b)
  {
    hide Printable;
    forall i | 0 <= i < |a + b| ensures Printable((a + b)[i]) {
      assert (a + b)[i] == if i < |a| then a[i] else b[i - |a|];
    }
  }

  lemma CodeIsPrintable(ls: seq<Line>)
    requires AreCodeLines(ls)
    ensures AllPrintable(ls)
  {
    forall i | 0 <= i < |ls| ensures Printable(ls[i]) {
      assert IsCodeLine(ls[i]);
    }
  }

  lemma CodeLinesAreCode(image: seq<byte>)
    requires Loader.ValidHeader(image)
    ensures AreCodeLines(CodeLines(image))
  {
    hide WrapCopy, Sweep;
    var h := Loader.ReadHeader(image);
    SweepPartitions(WrapCopy(Zeroed(), h.codeAddr, Loader.CodeBytes(image)), h.codeAddr, Wrap(h.codeAddr + h.codeSize));
  }

  lemma DataPrintable(image: seq<byte>)
    requires Loader.ValidHeader(image)
    ensures AllPrintable(DataLines(image))
  {
    hide ByteLines, Wrap, Loader.ReadHeader;
    var h := Loader.ReadHeader(image);
    ByteLinesAreCode(Loader.DataBytes(image));
    CodeIsPrintable(ByteLines(Loader.DataBytes(image)));
    hide Loader.DataBytes;
    if h.dataSize > 0 {
      var org := OrgUnless(h.dataAddr == Wrap(h.codeAddr + h.codeSize), h.dataAddr);
      ConcatPrintable([BlankLine, DataLine], org);
      ConcatPrintable([BlankLine, DataLine] + org, ByteLines(Loader.DataBytes(image)));
    }
  }

  lemma ImagePrintable(image: seq<byte>)
    requires Loader.ValidHeader(image)
    ensures AllPrintable(ImageLines(image))
  {
    hide CodeLines, DataLines, Heading;
    var h := Loader.ReadHeader(image);
    HeadingPrintable(h);
    CodeLinesAreCode(image);
    CodeIsPrintable(CodeLines(image));
    DataPrintable(image);
    var org := OrgUnless(h.codeAddr == 0, h.codeAddr);
    ConcatPrintable(Heading(h), org);
    ConcatPrintable(Heading(h) + org, CodeLines(image));
    ConcatPrintable(Heading(h) + org + CodeLines(image), DataLines(image));
  }

  /** The disassembly's text is assembled as the items of its lines. */
  lemma TextIsItems(image: seq<byte>) returns (lastLine: nat)
    requires Disassemble(image).Source?
    ensures Loader.ValidHeader(image) && Loader.ReadHeader(image).entryPoint == Loader.ReadHeader(image).codeAddr
    ensures Assemble(Disassemble(image).text) == AssembleItems(AllItems(ImageLines(image), 1), lastLine)
  {
    hide Lex, Items, ImageLines, PrintAll, AllItems, Build, LayOut, Complete;
    var ls := ImageLines(image);
    ImagePrintable(image);
    TextReads(ls, 1);
    var ts := Lex(PrintAll(ls), 1).tokens;
    BuildIsLayOut(ts, LineStart, NOTHING_PLACED);
    lastLine := ts[|ts| - 1].line;
  }

  // ---- pass 1 over the items ----

  function OrgStatements(skip: bool, line: nat): seq<Statement> {
    if skip then [] else [OrgStmt(line)]
  }

  /** An optional `.org`: nothing, or a forward move of the cursor, or an error. */
  lemma OrgPlaces(skip: bool, a: word, line: nat, p: Pass1)
    requires skip ==> Cursor(p.section) == a
    ensures var r := LayOut(AllItems(OrgUnless(skip, a), line), p);
            if Cursor(p.section) <= a then
              r == Placed(Pass1(p.statements + OrgStatements(skip, line), p.symbols, WithCursor(p.section, a)))
            else r.Misplaced?
  {
    if skip {
      assert p.statements + [] == p.statements;
    } else {
      var items := AllItems([OrgLine(a)], line);
      assert [OrgLine(a)][1..] == [] && AllItems([], line + 1) == [];
      assert items == LineItems(OrgLine(a), line) + [];
      assert items == [OrgItem(line, a)];
      assert items[1..] == [];
    }
  }

  /** Code at `h.codeAddr` begun and moved over. */
  function CodeSection(h: Loader.Header): Section
    requires h.CodeEnd() <= 0xFFFF
  {
    AT_ZERO.(codeStarted := true, codeStart := h.codeAddr, codeCursor := h.CodeEnd())
  }

  function Located(h: Loader.Header): Section {
    AT_ZERO.(codeCursor := h.codeAddr)
  }

  function CodeStatements(image: seq<byte>, line: nat): seq<Statement>
    requires Loader.ValidHeader(image)
  {
    var h := Loader.ReadHeader(image);
    CodeLinesAreCode(image);
    OrgStatements(h.codeAddr == 0, line)
    + StatementsOf(CodeLines(image), line + |OrgUnless(h.codeAddr == 0, h.codeAddr)|, Located(h))
  }

  /** The lines up to the end of the code, placed. */
  lemma CodePlaces(image: seq<byte>)
    requires Loader.ValidHeader(image)
    ensures var h := Loader.ReadHeader(image);
            var ls := Heading(h) + OrgUnless(h.codeAddr == 0, h.codeAddr) + CodeLines(image);
            LayOut(AllItems(ls, 1), NOTHING_PLACED)
            == Placed(Pass1(CodeStatements(image, 4), map[], SectionAfter(CodeLines(image), Located(h))))
  {
    hide CodeLines, Heading, LayOut, StatementsOf, SectionAfter, OrgUnless, AllItems, Loader.ReadHeader, AreCodeLines;
    var h := Loader.ReadHeader(image);
    var org := OrgUnless(h.codeAddr == 0, h.codeAddr);
    var code := CodeLines(image);
    CodeLinesAreCode(image);
    HeadingItems(h, 1);
    AllItemsConcat(Heading(h), org, 1);
    AllItemsConcat(Heading(h) + org, code, 1);
    var orgItems, codeItems := AllItems(org, 4), AllItems(code, 4 + |org|);
    assert AllItems(Heading(h) + org + code, 1) == orgItems + codeItems;
    LayOutConcat(orgItems, codeItems, NOTHING_PLACED);
    OrgPlaces(h.codeAddr == 0, h.codeAddr, 4, NOTHING_PLACED);
    var p1 := Pass1([] + OrgStatements(h.codeAddr == 0, 4), map[], Located(h));
    assert LayOut(orgItems, NOTHING_PLACED) == Placed(p1);
    LinesPlace(code, 4 + |org|, p1);
    assert [] + OrgStatements(h.codeAddr == 0, 4) == OrgStatements(h.codeAddr == 0, 4);
  }

  lemma SectionAfterCode(image: seq<byte>)
    requires Loader.ValidHeader(image)
    ensures var h := Loader.ReadHeader(image);
            SectionAfter(CodeLines(image), Located(h))
            == if h.codeSize >= 1 && h.CodeEnd() <= 0xFFFF then CodeSection(h) else Located(h)
  {
    hide CodeLines, AllBytes, Loader.ReadHeader;
    var h := Loader.ReadHeader(image);
    var code := CodeLines(image);
    if h.CodeEnd() > 0xFFFF {
      CodeLinesLost(image);
    } else {
      CodeLinesPartition(image);
      WrapSmall(h.CodeEnd());
      if h.codeSize == 0 {
        NoneLeft(code);
      } else {
        NoBytes();
        SectionAfterRun(code, Located(h));
        hide SectionAfter;
      }
    }
  }

  lemma NoBytes()
    ensures AllBytes([]) == []
  {
  }

  function DataSection(sec: Section): Section {
    sec.(dataSeen := true, inData := true, dataCursor := sec.codeCursor)
  }

  function DataStatements(bytes: seq<byte>, skip: bool, line: nat, sec: Section): seq<Statement> {
    ByteLinesAreCode(bytes);
    [DataStmt(line + 1)] + (OrgStatements(skip, line + 2)
                            + StatementsOf(ByteLines(bytes), line + 2 + |OrgStatements(skip, 0)|, sec))
  }

  /** `.data`, then whatever follows in the data section. */
  lemma DataItemPlaces(line: nat, more: seq<Line>, p: Pass1)
    requires !p.section.dataSeen
    ensures LayOut(AllItems([BlankLine, DataLine] + more, line), p)
         == LayOut(AllItems(more, line + 2),
                   Pass1(p.statements + [DataStmt(line + 1)], p.symbols, DataSection(p.section)))
  {
    var ls := [BlankLine, DataLine] + more;
    assert ls[1..] == [DataLine] + more;
    assert ls[1..][1..] == more;
    assert AllItems(ls, line) == AllItems(ls[1..], line + 1);
    var items := AllItems(ls[1..], line + 1);
    assert items == [DataItem(line + 1)] + AllItems(more, line + 2);
    assert items[1..] == AllItems(more, line + 2);
    hide AllItems;
  }

  /** The data lines, placed after code that ends at `p`'s cursor. */
  lemma DataPlaces(bytes: seq<byte>, addr: word, line: nat, p: Pass1)
    requires !p.section.dataSeen && bytes != []
    ensures var skip := addr == p.section.codeCursor;
            var ls := [BlankLine, DataLine] + OrgUnless(skip, addr) + ByteLines(bytes);
            var r := LayOut(AllItems(ls, line), p);
            var sec := WithCursor(DataSection(p.section), addr);
            if p.section.codeCursor <= addr then
              r == Placed(Pass1(p.statements + DataStatements(bytes, skip, line, sec), p.symbols,
                                SectionAfter(ByteLines(bytes), sec)))
            else r.Misplaced?
  {
    hide LayOut, AllItems, ByteLines, StatementsOf, SectionAfter, OrgUnless;
    var skip := addr == p.section.codeCursor;
    var org, data := OrgUnless(skip, addr), ByteLines(bytes);
    ByteLinesAreCode(bytes);
    assert [BlankLine, DataLine] + org + data == [BlankLine, DataLine] + (org + data);
    DataItemPlaces(line, org + data, p);
    var q := Pass1(p.statements + [DataStmt(line + 1)], p.symbols, DataSection(p.section));
    AllItemsConcat(org, data, line + 2);
    LayOutConcat(AllItems(org, line + 2), AllItems(data, line + 2 + |org|), q);
    OrgPlaces(skip, addr, line + 2, q);
    OrgLengths(skip, addr);
    if p.section.codeCursor <= addr {
      var orgs := OrgStatements(skip, line + 2);
      var sec := WithCursor(DataSection(p.section), addr);
      LinesPlace(data, line + 2 + |org|, Pass1(q.statements + orgs, p.symbols, sec));
      var sts := StatementsOf(data, line + 2 + |org|, sec);
      assert (p.statements + [DataStmt(line + 1)]) + orgs + sts == p.statements + ([DataStmt(line + 1)] + (orgs + sts));
    }
  }

  lemma OrgLengths(skip: bool, addr: word)
    ensures |OrgUnless(skip, addr)| == |OrgStatements(skip, 0)|
  {
  }

  // ---- pass 2 and the image ----

  lemma OrgEmits(skip: bool, line: nat, symbols: map<string, word>, b: Buffers)
    ensures EmitAll(OrgStatements(skip, line), symbols, b) == Emitted(b)
  {
    if !skip {
      OneEmit(OrgStmt(line), symbols, b);
    }
  }

  /** The code statements leave the code bytes at the code address of an empty buffer. */
  lemma CodeEmits(image: seq<byte>, symbols: map<string, word>)
    requires Loader.ValidHeader(image) && Loader.ReadHeader(image).CodeEnd() <= 0xFFFF
    ensures var h := Loader.ReadHeader(image);
            EmitAll(CodeStatements(image, 4), symbols, BlankBuffers())
            == Emitted(Buffers(Overlay(Zeroed(), h.codeAddr, Loader.CodeBytes(image)), Zeroed()))
  {
    hide CodeLines, StatementsOf, EmitAll, Overlay, Zeroed, Loader.ReadHeader, AreCodeLines, AllBytes, OrgUnless,
      OrgStatements;
    var h := Loader.ReadHeader(image);
    var org := OrgUnless(h.codeAddr == 0, h.codeAddr);
    var code := CodeLines(image);
    CodeLinesPartition(image);
    OrgEmits(h.codeAddr == 0, 4, symbols, BlankBuffers());
    LinesEmit(code, 4 + |org|, Located(h), symbols, BlankBuffers());
    EmitAllConcat(OrgStatements(h.codeAddr == 0, 4), StatementsOf(code, 4 + |org|, Located(h)),
                  symbols, BlankBuffers());
  }

  lemma DataStmtEmits(line: nat, symbols: map<string, word>, b: Buffers)
    ensures EmitAll([DataStmt(line)], symbols, b) == Emitted(b)
  {
    OneEmit(DataStmt(line), symbols, b);
  }

  lemma DataEmits(bytes: seq<byte>, skip: bool, line: nat, sec: Section, symbols: map<string, word>, b: Buffers)
    requires sec.inData && sec.dataCursor + |bytes| <= SIZE
    ensures EmitAll(DataStatements(bytes, skip, line, sec), symbols, b)
         == Emitted(b.(data := Overlay(b.data, sec.dataCursor, bytes)))
  {
    hide ByteLines, StatementsOf, EmitAll, Overlay, AreCodeLines, AllBytes, OrgStatements;
    ByteLinesAreCode(bytes);
    var data := ByteLines(bytes);
    var n := line + 2 + |OrgStatements(skip, 0)|;
    var orgs, sts := OrgStatements(skip, line + 2), StatementsOf(data, n, sec);
    DataStmtEmits(line + 1, symbols, b);
    OrgEmits(skip, line + 2, symbols, b);
    LinesEmit(data, n, sec, symbols, b);
    EmitAllConcat([DataStmt(line + 1)], orgs + sts, symbols, b);
    EmitAllConcat(orgs, sts, symbols, b);
  }

  /** The header the assembler writes for these regions. */
  function RebuiltHeader(h: Loader.Header): Loader.Header {
    Loader.Header(h.codeAddr, h.codeSize, h.codeAddr, h.dataSize, if h.dataSize > 0 then h.dataAddr else 0)
  }

  function Rebuilt(image: seq<byte>): seq<byte>
    requires Loader.ValidHeader(image)
  {
    HeaderBytes(RebuiltHeader(Loader.ReadHeader(image))) + Loader.CodeBytes(image) + Loader.DataBytes(image)
  }

  lemma SliceOfOverlay(m: Bytes, addr: word, bytes: seq<byte>)
    requires addr + |bytes| <= SIZE && bytes != [] && |bytes| < SIZE
    ensures SliceInside(addr, |bytes|) && Slice(Overlay(m, addr, bytes), addr, |bytes|) == bytes
  {
  }

  lemma DifferenceWraps(start: word, end: nat)
    requires start <= end <= SIZE && end - start < SIZE
    ensures Wrap((if end == SIZE then 0 else end) - start) == end - start
  {
  }

  /** Writing out sections that hold the code and the data of an image. */
  lemma ImageWritten(image: seq<byte>, s: Sections, m: Bytes, d: Bytes)
    requires Loader.ValidHeader(image) && Rebuilds(Loader.ReadHeader(image))
    requires var h := Loader.ReadHeader(image);
             && s.codeAddr == h.codeAddr && s.codeSize == h.codeSize
             && s.dataSize == h.dataSize && s.dataAddr == RebuiltHeader(h).dataAddr
             && s.buffers.code == Overlay(m, h.codeAddr, Loader.CodeBytes(image))
             && (h.dataSize > 0 ==> s.buffers.data == Overlay(d, h.dataAddr, Loader.DataBytes(image)))
    ensures WriteImage(s) == Image(Rebuilt(image))
  {
    hide Overlay, Loader.ReadHeader, HeaderBytes, Slice;
    var h := Loader.ReadHeader(image);
    var code, data := Loader.CodeBytes(image), Loader.DataBytes(image);
    assert |code| == h.codeSize && |data| == h.dataSize;
    hide Loader.CodeBytes, Loader.DataBytes;
    SliceOfOverlay(m, h.codeAddr, code);
    if h.dataSize > 0 {
      SliceOfOverlay(d, h.dataAddr, data);
    } else {
      EmptySlice(s.buffers.data, s.dataAddr);
      assert data == [];
    }
  }

  lemma EmptySlice(m: Bytes, addr: word)
    ensures Slice(m, addr, 0) == []
  {
  }

  // ---- the whole text ----

  /** The state of pass 1 at the end of the code lines. */
  function AfterCode(image: seq<byte>): Pass1
    requires Loader.ValidHeader(image)
  {
    var h := Loader.ReadHeader(image);
    Pass1(CodeStatements(image, 4), map[],
          if h.codeSize >= 1 && h.CodeEnd() <= 0xFFFF then CodeSection(h) else Located(h))
  }

  /** Pass 1 over an image's lines is pass 1 over its data lines from the end of the code. */
  lemma WholePlaces(image: seq<byte>) returns (line: nat)
    requires Loader.ValidHeader(image)
    ensures LayOut(AllItems(ImageLines(image), 1), NOTHING_PLACED)
         == LayOut(AllItems(DataLines(image), line), AfterCode(image))
  {
    hide CodeLines, DataLines, Heading, LayOut, OrgUnless, AllItems, Loader.ReadHeader, SectionAfter, CodeStatements;
    var h := Loader.ReadHeader(image);
    var head := Heading(h) + OrgUnless(h.codeAddr == 0, h.codeAddr) + CodeLines(image);
    line := 1 + |head|;
    CodePlaces(image);
    SectionAfterCode(image);
    AllItemsConcat(head, DataLines(image), 1);
    LayOutConcat(AllItems(head, 1), AllItems(DataLines(image), line), NOTHING_PLACED);
  }

  lemma NoItems(p: Pass1, line: nat)
    ensures LayOut(AllItems([], line), p) == Placed(p)
  {
  }

  /** Sections of an image with code alone. */
  lemma CodeAlone(image: seq<byte>, lastLine: nat)
    requires Loader.ValidHeader(image)
    requires var h := Loader.ReadHeader(image); h.codeSize >= 1 && h.CodeEnd() <= 0xFFFF && h.dataSize == 0
    ensures Complete(AfterCode(image), lastLine) == Image(Rebuilt(image))
  {
    hide CodeStatements, EmitAll, Overlay, Loader.ReadHeader, WriteImage, Wrap, Rebuilt, Zeroed, BlankBuffers;
    var h := Loader.ReadHeader(image);
    CodeEmits(image, map[]);
    DifferenceWraps(h.codeAddr, h.CodeEnd());
    var b := Buffers(Overlay(Zeroed(), h.codeAddr, Loader.CodeBytes(image)), Zeroed());
    ImageWritten(image, SectionsOf(CodeSection(h), b), Zeroed(), Zeroed());
  }

  /** The data section of an image, from its address over its bytes; the cursor is 16 bits wide. */
  function FinalSection(h: Loader.Header): Section
    requires h.CodeEnd() <= 0xFFFF
  {
    DataSection(CodeSection(h)).(dataStarted := true, dataStart := h.dataAddr, dataCursor := Wrap(h.DataEnd()))
  }

  lemma DataAfter(bytes: seq<byte>, h: Loader.Header)
    requires h.CodeEnd() <= 0xFFFF && bytes != [] && |bytes| == h.dataSize
    ensures SectionAfter(ByteLines(bytes), WithCursor(DataSection(CodeSection(h)), h.dataAddr)) == FinalSection(h)
  {
    hide ByteLines, Wrap, AllBytes, SectionAfter;
    ByteLinesAreCode(bytes);
    NoBytes();
    SectionAfterRun(ByteLines(bytes), WithCursor(DataSection(CodeSection(h)), h.dataAddr));
  }

  /** Pass 1 over the data lines: placed where the image says, or refused as a backward `.org`. */
  lemma DataLinesPlace(image: seq<byte>, line: nat) returns (sts: seq<Statement>)
    requires Loader.ValidHeader(image)
    requires var h := Loader.ReadHeader(image); h.codeSize >= 1 && h.CodeEnd() <= 0xFFFF && h.dataSize > 0
    ensures var h := Loader.ReadHeader(image);
            var r := LayOut(AllItems(DataLines(image), line), AfterCode(image));
            && sts == DataStatements(Loader.DataBytes(image), h.dataAddr == h.CodeEnd(), line,
                                     WithCursor(DataSection(CodeSection(h)), h.dataAddr))
            && if h.CodeEnd() <= h.dataAddr then
                 r == Placed(Pass1(CodeStatements(image, 4) + sts, map[], FinalSection(h)))
               else r.Misplaced?
  {
    hide LayOut, AllItems, ByteLines, OrgUnless, Loader.ReadHeader, SectionAfter, CodeStatements, DataStatements, Wrap;
    var h := Loader.ReadHeader(image);
    var bytes := Loader.DataBytes(image);
    assert |bytes| == h.dataSize;
    hide Loader.DataBytes;
    WrapSmall(h.CodeEnd());
    DataPlaces(bytes, h.dataAddr, line, AfterCode(image));
    DataAfter(bytes, h);
    sts := DataStatements(bytes, h.dataAddr == h.CodeEnd(), line, WithCursor(DataSection(CodeSection(h)), h.dataAddr));
  }

  /** The image of code and data, when the data fits below the top of memory. */
  lemma CodeAndData(image: seq<byte>, line: nat, sts: seq<Statement>, lastLine: nat)
    requires Loader.ValidHeader(image)
    requires var h := Loader.ReadHeader(image); Rebuilds(h) && h.dataSize > 0
    requires var h := Loader.ReadHeader(image);
             sts == DataStatements(Loader.DataBytes(image), h.dataAddr == h.CodeEnd(), line,
                                   WithCursor(DataSection(CodeSection(h)), h.dataAddr))
    ensures Complete(Pass1(CodeStatements(image, 4) + sts, map[], FinalSection(Loader.ReadHeader(image))), lastLine)
         == Image(Rebuilt(image))
  {
    hide CodeStatements, DataStatements, EmitAll, Overlay, Loader.ReadHeader, WriteImage, Rebuilt, Zeroed,
      BlankBuffers, Wrap;
    var h := Loader.ReadHeader(image);
    var sec := WithCursor(DataSection(CodeSection(h)), h.dataAddr);
    CodeEmits(image, map[]);
    var b := Buffers(Overlay(Zeroed(), h.codeAddr, Loader.CodeBytes(image)), Zeroed());
    DataEmits(Loader.DataBytes(image), h.dataAddr == h.CodeEnd(), line, sec, map[], b);
    EmitAllConcat(CodeStatements(image, 4), sts, map[], BlankBuffers());
    DifferenceWraps(h.codeAddr, h.CodeEnd());
    DataCursor(h);
    var c := b.(data := Overlay(Zeroed(), h.dataAddr, Loader.DataBytes(image)));
    ImageWritten(image, SectionsOf(FinalSection(h), c), Zeroed(), Zeroed());
  }

  lemma DataCursor(h: Loader.Header)
    requires h.DataEnd() <= SIZE
    ensures Wrap(Wrap(h.DataEnd()) - h.dataAddr) == h.dataSize
  {
  }

  lemma LateDataCursor(h: Loader.Header)
    ensures Wrap(Wrap(h.DataEnd()) as int - h.dataAddr as int) == h.dataSize
  {
  }

  /** Data past the top of memory: if pass 2 succeeds at all, the data slice would leave its buffer. */
  lemma DataOverruns(p: Pass1, h: Loader.Header, lastLine: nat)
    requires h.CodeEnd() <= 0xFFFF && p.section == FinalSection(h)
    requires h.dataSize > 0 && h.DataEnd() > SIZE
    ensures Complete(p, lastLine).Failed?
  {
    hide EmitAll, Slice, Wrap;
    LateDataCursor(h);
  }

  // ---- images whose code is lost ----

  lemma OrgKeepsCode(skip: bool, a: word, line: nat, p: Pass1)
    ensures var r := LayOut(AllItems(OrgUnless(skip, a), line), p);
            r.Placed? ==> r.state.section.inData == p.section.inData
                          && r.state.section.codeStarted == p.section.codeStarted
  {
    if !skip {
      var items := AllItems([OrgLine(a)], line);
      assert [OrgLine(a)][1..] == [] && AllItems([], line + 1) == [];
      assert items == LineItems(OrgLine(a), line) + [];
      assert items == [OrgItem(line, a)];
      assert items[1..] == [];
    }
  }

  lemma BytesKeepCode(bytes: seq<byte>, line: nat, p: Pass1)
    requires p.section.inData
    ensures var r := LayOut(AllItems(ByteLines(bytes), line), p);
            r.Placed? && r.state.section.codeStarted == p.section.codeStarted
  {
    hide ByteLines, LayOut, AllItems, AllBytes, Wrap;
    ByteLinesAreCode(bytes);
    LinesPlace(ByteLines(bytes), line, p);
    if ByteLines(bytes) != [] {
      SectionAfterRun(ByteLines(bytes), p.section);
    }
  }

  /** With no code line, nothing reaches the code section and assembly fails. */
  lemma CodeLost(image: seq<byte>, line: nat, lastLine: nat)
    requires Loader.ValidHeader(image)
    requires var h := Loader.ReadHeader(image); !(h.codeSize >= 1 && h.CodeEnd() <= 0xFFFF)
    ensures CompleteResult(LayOut(AllItems(DataLines(image), line), AfterCode(image)), lastLine).Failed?
  {
    hide LayOut, AllItems, ByteLines, OrgUnless, Loader.ReadHeader, CodeStatements, Loader.DataBytes, Wrap, EmitAll;
    var h := Loader.ReadHeader(image);
    var p := AfterCode(image);
    if h.dataSize == 0 {
      NoItems(p, line);
    } else {
      var skip := h.dataAddr == Wrap(h.codeAddr + h.codeSize);
      var org, data := OrgUnless(skip, h.dataAddr), ByteLines(Loader.DataBytes(image));
      assert [BlankLine, DataLine] + org + data == [BlankLine, DataLine] + (org + data);
      DataItemPlaces(line, org + data, p);
      var q := Pass1(p.statements + [DataStmt(line + 1)], p.symbols, DataSection(p.section));
      AllItemsConcat(org, data, line + 2);
      LayOutConcat(AllItems(org, line + 2), AllItems(data, line + 2 + |org|), q);
      OrgKeepsCode(skip, h.dataAddr, line + 2, q);
      var r := LayOut(AllItems(org, line + 2), q);
      if r.Placed? {
        BytesKeepCode(Loader.DataBytes(image), line + 2 + |org|, r.state);
      }
    }
  }

  // ---- the round trip ----

  /** Assembling the disassembly of any image: the header and both regions rebuilt if the regions allow it,
      and an error otherwise. */
  lemma Reassembles(image: seq<byte>)
    requires Disassemble(image).Source?
    ensures Loader.ValidHeader(image)
    ensures var r := Assemble(Disassemble(image).text);
            if Rebuilds(Loader.ReadHeader(image)) then r == Image(Rebuilt(image)) else r.Failed?
  {
    hide ImageLines, PrintAll, Lex, AllItems, LayOut, Complete, DataStatements, CodeStatements, Rebuilt, AfterCode,
         Assemble, Loader.ReadHeader, DataLines;
    var lastLine := TextIsItems(image);
    var line := WholePlaces(image);
    var h := Loader.ReadHeader(image);
    if !(h.codeSize >= 1 && h.CodeEnd() <= 0xFFFF) {
      CodeLost(image, line, lastLine);
    } else if h.dataSize == 0 {
      NoDataLines(image);
      NoItems(AfterCode(image), line);
      CodeAlone(image, lastLine);
    } else {
      var sts := DataLinesPlace(image, line);
      if h.CodeEnd() <= h.dataAddr {
        if h.DataEnd() <= SIZE {
          CodeAndData(image, line, sts, lastLine);
        } else {
          DataOverruns(Pass1(CodeStatements(image, 4) + sts, map[], FinalSection(h)), h, lastLine);
        }
      }
    }
  }

  lemma NoDataLines(image: seq<byte>)
    requires Loader.ValidHeader(image) && Loader.ReadHeader(image).dataSize == 0
    ensures DataLines(image) == []
  {
  }

  lemma HeaderIsImageStart(image: seq<byte>)
    requires Loader.ValidHeader(image)
    ensures image[..Loader.HEADER_SIZE] == HeaderBytes(Loader.ReadHeader(image))
  {
    hide LowByte, HighByte, FromBytes;
    JoinThenSplit(image[6], image[7]);
    JoinThenSplit(image[8], image[9]);
    JoinThenSplit(image[10], image[11]);
    JoinThenSplit(image[12], image[13]);
    JoinThenSplit(image[14], image[15]);
    var b, m := HeaderBytes(Loader.ReadHeader(image)), Loader.MAGIC;
    assert image[..4] == m;
    assert image[0] == m[0] && image[1] == m[1] && image[2] == m[2] && image[3] == m[3];
  }

  /** The rebuilt image is the original iff the original has no trailing bytes and no idle data address. */
  lemma RebuiltIsImage(image: seq<byte>)
    requires Loader.ValidHeader(image) && Loader.ReadHeader(image).entryPoint == Loader.ReadHeader(image).codeAddr
    ensures var h := Loader.ReadHeader(image);
            Rebuilt(image) == image <==>
              |image| == Loader.HEADER_SIZE + h.codeSize + h.dataSize && (h.dataSize == 0 ==> h.dataAddr == 0)
  {
    hide HeaderBytes, Loader.ReadHeader;
    var h := Loader.ReadHeader(image);
    HeaderIsImageStart(image);
    var code, data := Loader.CodeBytes(image), Loader.DataBytes(image);
    var n := Loader.HEADER_SIZE + h.codeSize + h.dataSize;
    assert image[..n] == image[..Loader.HEADER_SIZE] + code + data;
    HeaderReadsBack(RebuiltHeader(h), code + data);
    assert HeaderBytes(RebuiltHeader(h)) + (code + data) == Rebuilt(image);
    assert |Rebuilt(image)| == n;
    if |image| == n {
      assert image[..n] == image;
    }
  }

  /** The round-trip law: for every image the disassembler accepts, assembling its disassembly gives back the
      same bytes if and only if the image is canonical. */
  lemma RoundTripIffCanonical(image: seq<byte>)
    requires Disassemble(image).Source?
    ensures Assemble(Disassemble(image).text) == Image(image) <==> Canonical(image)
  {
    hide Assemble, ImageLines, PrintAll, Rebuilt, Loader.ReadHeader;
    Reassembles(image);
    RebuiltIsImage(image);
  }

  /** Every canonical image is accepted by the disassembler and by the loader. */
  lemma CanonicalIsAccepted(image: seq<byte>)
    requires Canonical(image)
    ensures Disassemble(image).Source? && Loader.Acceptable(image)
  {
    hide ImageLines, PrintAll;
  }
}
