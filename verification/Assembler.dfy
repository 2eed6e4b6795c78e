/** The assembler from source text to .bvm image: both passes, then the header and
    the two section slices (src/assembler/parser.c, assemble_tokens; src/assembler.c). */
module Assembler {
  import opened Words
  import opened Memory
  import opened Isa
  import opened Lexer
  import opened Syntax
  import opened Layout
  import opened Emit
  import Loader

  datatype Assembly = Image(bytes: seq<byte>) | Failed(line: nat, error: AsmError)

  /** What both passes hand to the writer of the image. */
  datatype Sections = Sections(
    buffers: Buffers,
    codeAddr: word,
    codeSize: word,
    dataAddr: word,
    dataSize: word)

  function SectionsOf(sec: Section, b: Buffers): Sections {
    Sections(
      b,
      sec.codeStart,
      Wrap(sec.codeCursor as int - sec.codeStart as int),
      sec.dataStart,
      if sec.dataStarted then Wrap(sec.dataCursor as int - sec.dataStart as int) else 0)
  }

  /** Magic, version, reserved byte, and the five header words. */
  function HeaderBytes(h: Loader.Header): (r: seq<byte>)
    ensures |r| == Loader.HEADER_SIZE
  {
    Loader.MAGIC + [1, 0] + WordBytes(h.entryPoint) + WordBytes(h.codeSize) + WordBytes(h.codeAddr)
    + WordBytes(h.dataSize) + WordBytes(h.dataAddr)
  }

  /** The entry point is always the start of the code. */
  function HeaderOf(s: Sections): Loader.Header {
    Loader.Header(s.codeAddr, s.codeSize, s.codeAddr, s.dataSize, s.dataAddr)
  }

  /** A section slice; one that would run past its 64 KB buffer is undefined in C, and an error here. */
  predicate SliceInside(addr: word, size: word) {
    size > 0 ==> addr + size <= SIZE
  }

  function Slice(m: Bytes, addr: word, size: word): seq<byte>
    requires SliceInside(addr, size)
  {
    if size > 0 then m[addr..addr + size] else []
  }

  function WriteImage(s: Sections): Assembly {
    if !SliceInside(s.codeAddr, s.codeSize) || !SliceInside(s.dataAddr, s.dataSize) then Failed(0, Overrun)
    else
      Image(HeaderBytes(HeaderOf(s)) + Slice(s.buffers.code, s.codeAddr, s.codeSize)
            + Slice(s.buffers.data, s.dataAddr, s.dataSize))
  }

  /** Pass 2 and the image, once pass 1 is over; a program with nothing in the code section is refused. */
  function Complete(p: Pass1, lastLine: nat): Assembly {
    if !p.section.codeStarted then Failed(lastLine, NoCode)
    else
      var emitted := EmitAll(p.statements, p.symbols, BlankBuffers());
      if emitted.EmitError? then Failed(emitted.line, emitted.error)
      else WriteImage(SectionsOf(p.section, emitted.buffers))
  }

  function CompleteResult(r: PlaceResult, lastLine: nat): Assembly {
    match r
    case Misplaced(l, e) => Failed(l, e)
    case Placed(p) => Complete(p, lastLine)
  }

  function AssembleTokens(ts: seq<Token>): Assembly
    requires Terminated(ts)
  {
    CompleteResult(Build(ts, LineStart, NOTHING_PLACED), ts[|ts| - 1].line)
  }

  function Assemble(source: string): Assembly {
    match Lex(source, 1)
    case LexError(line, f) => Failed(line, Lexical(f))
    case Tokens(ts) => AssembleTokens(ts)
  }

  /** The assembler on a list of items. */
  function AssembleItems(items: seq<Item>, lastLine: nat): Assembly {
    CompleteResult(LayOut(items, NOTHING_PLACED), lastLine)
  }

  /** A source that assembles is a list of items that assembles to the same image. */
  lemma SourceIsItems(source: string) returns (items: seq<Item>)
    requires Assemble(source).Image?
    ensures Lex(source, 1).Tokens? && Items(Lex(source, 1).tokens, LineStart) == Parsed(items)
    ensures AssembleItems(items, 0) == Assemble(source)
  {
    hide Build, LayOut, Items, Complete, Lex;
    var ts := Lex(source, 1).tokens;
    BuildIsLayOut(ts, LineStart, NOTHING_PLACED);
    items := Items(ts, LineStart).items;
    CompleteLine(LayOut(items, NOTHING_PLACED), ts[|ts| - 1].line);
  }

  /** The last line matters only to an error message. */
  lemma CompleteLine(r: PlaceResult, line: nat)
    ensures CompleteResult(r, line).Image? ==> CompleteResult(r, 0) == CompleteResult(r, line)
  {
    hide EmitAll, WriteImage;
  }

  // ---- the header of an image ----

  lemma HeaderReadsBack(h: Loader.Header, rest: seq<byte>)
    ensures Loader.ReadHeader(HeaderBytes(h) + rest) == h
    ensures (HeaderBytes(h) + rest)[..4] == Loader.MAGIC
    ensures (HeaderBytes(h) + rest)[4] == 1 && (HeaderBytes(h) + rest)[5] == 0
  {
    var d := HeaderBytes(h) + rest;
    hide LowByte, HighByte, FromBytes;
    SplitThenJoin(h.entryPoint);
    SplitThenJoin(h.codeSize);
    SplitThenJoin(h.codeAddr);
    SplitThenJoin(h.dataSize);
    SplitThenJoin(h.dataAddr);
  }
}
