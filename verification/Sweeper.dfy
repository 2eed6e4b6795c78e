/** The disassembler as the program runs it: text appended piece by piece to a buffer, a
    loop that sweeps the code, and a loop over the data bytes (src/disassembler.c). */
module Sweeper {
  import opened Words
  import opened Memory
  import opened Isa
  import opened Text
  import opened Disassembler
  import Loader

  lemma {:induction false} PrintAllConcat(a: seq<Line>, b: seq<Line>)
    ensures PrintAll(a + b) == PrintAll(a) + PrintAll(b)
  {
    hide PrintLine;
    if a == [] {
      assert a + b == b;
    } else {
      assert (a + b)[1..] == a[1..] + b;
      PrintAllConcat(a[1..], b);
    }
  }

  lemma PrintOne(l: Line)
    ensures PrintAll([l]) == PrintLine(l)
  {
    hide PrintLine;
    assert PrintAll([l][1..]) == "";
  }

  lemma Assoc(a: string, b: string, c: string)
    ensures a + b + c == a + (b + c)
  {
  }

  /** The growing output buffer. */
  class Out {
    var text: string

    constructor ()
      ensures text == ""
    {
      text := "";
    }

    method Append(piece: string)
      modifies this
      ensures text == old(text) + piece
    {
      text := text + piece;
    }

    method PrintAddress(a: word)
      modifies this
      ensures text == old(text) + Address(a)
    {
      Append("0x");
      Append(Hex(a, 4));
    }

    method PrintOperand(op: Opcode, o: Operand, mask: ModeMask)
      modifies this
      ensures text == old(text) + FormatOperand(op, o, mask)
    {
      match o.mode {
        case Absent =>
        case Reg =>
          Append("R");
          Append(Decimal(o.value));
        case RegIndirect =>
          Append("[");
          Append("R" + Decimal(o.value));
          Append("]");
        case Imm16 =>
          Append(Decimal(o.value));
        case Imm8 =>
          if op == SYS && SyscallNameFor(o.value).Some? {
            Append(SyscallNameFor(o.value).value);
          } else {
            Append(Decimal(o.value));
          }
        case MemDirect =>
          if mask.regIndirect {
            Append("[");
            PrintAddress(o.value);
            Append("]");
          } else {
            PrintAddress(o.value);
          }
      }
    }

    method PrintInstruction(i: Instruction)
      modifies this
      ensures text == old(text) + FormatInstruction(i)
    {
      hide FormatOperand, MnemonicFor, LegalModes;
      var masks := LegalModes(i.opcode);
      Append(MnemonicFor(i.opcode));
      if i.op1.mode != Absent {
        Append(" ");
        PrintOperand(i.opcode, i.op1, masks.0);
        if i.op2.mode != Absent {
          Append(", ");
          PrintOperand(i.opcode, i.op2, masks.1);
        }
      }
    }

    method PrintByte(b: byte)
      modifies this
      ensures text == old(text) + PrintLine(ByteLine(b))
    {
      Append("    .byte 0x");
      Append(Hex(b, 2));
      Append("\n");
    }

    method PrintOrg(a: word)
      modifies this
      ensures text == old(text) + PrintLine(OrgLine(a))
    {
      hide Address;
      Append(".org ");
      PrintAddress(a);
      Append("\n");
    }

    method PrintRegion(size: word, a: word)
      modifies this
      ensures text == old(text) + Region(size, a)
    {
      hide Address, Decimal;
      Append(Decimal(size) + " bytes at ");
      PrintAddress(a);
      Assoc(Decimal(size), " bytes at ", Address(a));
      Assoc(old(text), Decimal(size) + " bytes at ", Address(a));
    }

    method PrintDataRegion(h: Loader.Header)
      modifies this
      ensures text == old(text) + DataRegion(h)
    {
      hide Region;
      if h.dataSize > 0 {
        Append(", data: ");
        PrintRegion(h.dataSize, h.dataAddr);
        Assoc(old(text), ", data: ", Region(h.dataSize, h.dataAddr));
      }
    }

    method PrintRegions(h: Loader.Header)
      modifies this
      ensures text == old(text) + Body(CommentLine(Regions(h)))
    {
      hide Region, DataRegion, Body, Regions;
      Append("; code: ");
      PrintRegion(h.codeSize, h.codeAddr);
      PrintDataRegion(h);
      Assoc(old(text), "; code: ", Region(h.codeSize, h.codeAddr));
      Assoc(old(text), "; code: " + Region(h.codeSize, h.codeAddr), DataRegion(h));
      RegionsText(h);
    }

    method PrintHeading(h: Loader.Header)
      modifies this
      ensures text == old(text) + PrintAll(Heading(h))
    {
      hide Regions, PrintAll, Heading, Body;
      Append("; disassembled from a .bvm image\n");
      PrintRegions(h);
      Append("\n\n");
      HeadingText(h);
    }

    /** One turn of the sweep at `pc`: print what is there and say where to go on. */
    method PrintStep(mem: Ram, pc: word, end: word) returns (next: word)
      requires mem.Valid() && pc < end
      modifies this
      ensures text == old(text) + PrintLine(SweepStep(mem.Contents(), pc, end).0)
      ensures next == SweepStep(mem.Contents(), pc, end).1
    {
      hide Decode, FormatInstruction, PrintLine;
      var result, instr;
      result, next, instr := Fetch(mem, pc);
      if result != OK || next > end || next <= pc {
        var raw := mem.Read8(pc);
        PrintByte(raw);
        next := Wrap(pc + 1);
      } else {
        Append("    ");
        PrintInstruction(instr);
        Append("\n");
        InstrText(instr);
      }
    }

    /** The sweep loop. */
    method PrintSweep(mem: Ram, start: word, end: word)
      requires mem.Valid()
      modifies this
      ensures text == old(text) + PrintAll(Sweep(mem.Contents(), start, end))
    {
      hide SweepStep, PrintLine;
      var pc: word := start;
      ghost var m := mem.Contents();
      while pc < end
        invariant text + PrintAll(Sweep(m, pc, end)) == old(text) + PrintAll(Sweep(m, start, end))
        decreases end as int - pc as int
      {
        SweepAdvances(m, pc, end);
        SweepText(m, pc, end);
        pc := PrintStep(mem, pc, end);
      }
    }

    method PrintBytes(bytes: seq<byte>)
      modifies this
      ensures text == old(text) + PrintAll(ByteLines(bytes))
    {
      hide PrintLine;
      var i := 0;
      while i < |bytes|
        invariant 0 <= i <= |bytes|
        invariant text + PrintAll(ByteLines(bytes[i..])) == old(text) + PrintAll(ByteLines(bytes))
      {
        BytesText(bytes, i);
        PrintByte(bytes[i]);
        i := i + 1;
      }
    }
  }

  lemma HeadingText(h: Loader.Header)
    ensures PrintAll(Heading(h))
         == "; disassembled from a .bvm image\n" + Body(CommentLine(Regions(h))) + "\n\n"
  {
    hide Regions, PrintLine, Body;
    var ls := Heading(h);
    PrintAllConcat([ls[0]], [ls[1], ls[2]]);
    PrintAllConcat([ls[1]], [ls[2]]);
    PrintOne(ls[0]);
    PrintOne(ls[1]);
    PrintOne(ls[2]);
    assert ls == [ls[0]] + ([ls[1]] + [ls[2]]);
    HeadingLines(Regions(h));
  }

  lemma HeadingLines(regions: string)
    ensures PrintLine(CommentLine(" disassembled from a .bvm image")) == "; disassembled from a .bvm image\n"
    ensures PrintLine(CommentLine(regions)) + PrintLine(BlankLine) == Body(CommentLine(regions)) + "\n\n"
  {
    assert ";" + " disassembled from a .bvm image" == "; disassembled from a .bvm image";
    assert "; disassembled from a .bvm image" + "\n" == "; disassembled from a .bvm image\n";
    assert "\n" + "\n" == "\n\n" && PrintLine(BlankLine) == "\n";
    Assoc(Body(CommentLine(regions)), "\n", "\n");
  }

  lemma RegionsText(h: Loader.Header)
    ensures Body(CommentLine(Regions(h))) == "; code: " + Region(h.codeSize, h.codeAddr) + DataRegion(h)
  {
    hide Region, DataRegion;
    Assoc(";", " code: ", Region(h.codeSize, h.codeAddr));
    Assoc(";", " code: " + Region(h.codeSize, h.codeAddr), DataRegion(h));
    assert ";" + " code: " == "; code: ";
  }

  lemma InstrText(i: Instruction)
    ensures PrintLine(InstrLine(i)) == "    " + FormatInstruction(i) + "\n"
  {
    hide FormatInstruction;
  }

  lemma SweepText(m: Bytes, pc: word, end: word)
    requires pc < end
    ensures PrintAll(Sweep(m, pc, end))
         == PrintLine(SweepStep(m, pc, end).0) + PrintAll(Sweep(m, SweepStep(m, pc, end).1, end))
  {
    hide SweepStep, PrintLine;
    SweepAdvances(m, pc, end);
    var (line, next) := SweepStep(m, pc, end);
    PrintAllConcat([line], Sweep(m, next, end));
    PrintOne(line);
  }

  lemma BytesText(bytes: seq<byte>, i: nat)
    requires i < |bytes|
    ensures PrintAll(ByteLines(bytes[i..])) == PrintLine(ByteLine(bytes[i])) + PrintAll(ByteLines(bytes[i + 1..]))
  {
    hide PrintLine;
    assert bytes[i..][1..] == bytes[i + 1..];
    PrintAllConcat([ByteLine(bytes[i])], ByteLines(bytes[i + 1..]));
    PrintOne(ByteLine(bytes[i]));
  }

  /** The loop that copies the code to the addresses it was assembled for. */
  method CopyCode(mem: Ram, addr: word, code: seq<byte>)
    requires mem.Valid()
    modifies mem.data
    ensures mem.Contents() == WrapCopy(old(mem.Contents()), addr, code)
  {
    hide Wrap;
    var i := 0;
    assert code[..0] == [];
    while i < |code|
      invariant 0 <= i <= |code|
      invariant mem.Contents() == WrapCopy(old(mem.Contents()), addr, code[..i])
    {
      assert code[..i + 1][..i] == code[..i];
      mem.Write8(Wrap(addr + i), code[i]);
      i := i + 1;
    }
    assert code[..i] == code;
  }

  lemma ImageText(image: seq<byte>)
    requires Loader.ValidHeader(image)
    ensures PrintAll(ImageLines(image))
         == (var h := Loader.ReadHeader(image);
             PrintAll(Heading(h)) + PrintAll(OrgUnless(h.codeAddr == 0, h.codeAddr))
             + PrintAll(CodeLines(image)) + PrintAll(DataLines(image)))
  {
    hide Loader.ReadHeader, Heading, OrgUnless, CodeLines, DataLines, PrintAll;
    var h := Loader.ReadHeader(image);
    var org := OrgUnless(h.codeAddr == 0, h.codeAddr);
    PrintAllConcat(Heading(h) + org + CodeLines(image), DataLines(image));
    PrintAllConcat(Heading(h) + org, CodeLines(image));
    PrintAllConcat(Heading(h), org);
  }

  /** The data part of a listing. */
  function DataText(h: Loader.Header, bytes: seq<byte>): string {
    if h.dataSize == 0 then ""
    else
      "\n.data\n" + PrintAll(OrgUnless(h.dataAddr == Wrap(h.codeAddr + h.codeSize), h.dataAddr))
      + PrintAll(ByteLines(bytes))
  }

  lemma DataIsText(image: seq<byte>)
    requires Loader.ValidHeader(image)
    ensures PrintAll(DataLines(image)) == DataText(Loader.ReadHeader(image), Loader.DataBytes(image))
  {
    hide Loader.ReadHeader, OrgUnless, ByteLines, Wrap, PrintAll;
    var h := Loader.ReadHeader(image);
    if h.dataSize == 0 {
      PrintNone();
    } else {
      var org := OrgUnless(h.dataAddr == Wrap(h.codeAddr + h.codeSize), h.dataAddr);
      PrintAllConcat([BlankLine, DataLine] + org, ByteLines(Loader.DataBytes(image)));
      PrintAllConcat([BlankLine, DataLine], org);
      DataOpening();
    }
  }

  lemma PrintNone()
    ensures PrintAll([]) == ""
  {
  }

  lemma DataOpening()
    ensures PrintAll([BlankLine, DataLine]) == "\n.data\n"
  {
    PrintAllConcat([BlankLine], [DataLine]);
    PrintOne(BlankLine);
    PrintOne(DataLine);
    assert [BlankLine] + [DataLine] == [BlankLine, DataLine];
  }

  method PrintOrgUnless(out: Out, skip: bool, a: word)
    modifies out
    ensures out.text == old(out.text) + PrintAll(OrgUnless(skip, a))
  {
    hide PrintLine;
    if !skip {
      out.PrintOrg(a);
      PrintOne(OrgLine(a));
    }
  }

  method PrintData(out: Out, h: Loader.Header, bytes: seq<byte>)
    modifies out
    ensures out.text == old(out.text) + DataText(h, bytes)
  {
    hide PrintAll, OrgUnless, ByteLines, Wrap;
    if h.dataSize > 0 {
      out.Append("\n.data\n");
      PrintOrgUnless(out, h.dataAddr == Wrap(h.codeAddr + h.codeSize), h.dataAddr);
      out.PrintBytes(bytes);
    }
  }

  /** The listing of an image, printed from top to bottom. */
  method PrintImage(image: seq<byte>) returns (text: string)
    requires Loader.ValidHeader(image)
    ensures text == PrintAll(ImageLines(image))
  {
    hide PrintAll, Heading, OrgUnless, Sweep, WrapCopy, Wrap, DataText, DataLines, ImageLines, Loader.ReadHeader;
    var h := Loader.ReadHeader(image);
    var mem := new Ram();
    CopyCode(mem, h.codeAddr, Loader.CodeBytes(image));
    var out := new Out();
    out.PrintHeading(h);
    PrintOrgUnless(out, h.codeAddr == 0, h.codeAddr);
    out.PrintSweep(mem, h.codeAddr, Wrap(h.codeAddr + h.codeSize));
    PrintData(out, h, Loader.DataBytes(image));
    DataIsText(image);
    ImageText(image);
    text := out.text;
  }

  /** The whole disassembler: the checks on the header, then the listing. */
  method DisassembleImage(image: seq<byte>) returns (r: Disassembly)
    ensures r == Disassemble(image)
  {
    hide ImageLines, PrintAll, Loader.ReadHeader;
    if |image| < Loader.HEADER_SIZE || image[..4] != Loader.MAGIC || image[4] != 1 || image[5] != 0 {
      return Refused(NotBvm);
    }
    var h := Loader.ReadHeader(image);
    if |image| < Loader.HEADER_SIZE + h.codeSize + h.dataSize {
      return Refused(TooShort);
    }
    if h.entryPoint != h.codeAddr {
      return Refused(EntryElsewhere);
    }
    var text := PrintImage(image);
    r := Source(text);
  }
}
