# ByteVM, modelled and verified

ByteVM is a 16-bit virtual machine with its own toolchain: an instruction set and decoder, an
interpreter, a loader for `.bvm` images, a two-pass assembler, a linear-sweep disassembler and a
debugger. This project models those components in Dafny 4.11 and proves what they promise, most of
all what they promise together. Check it with `dafny verify dfyconfig.toml`.

## How the model is built

Each component has two halves. A specification on values says what the component computes: the
machine is a transition system `Machine.Step`, the assembler a function from source text to an image
or an error, the disassembler a function from an image to text. The program itself follows the C code:
classes whose fields are updated in place and methods with the same loops and branches (`Interpreter.VM`,
`Memory.Ram`, `Cpu.Processor`, `Console.Streams`, `Symtab.SymbolTable`, `Parser.Parser`,
`Codegen.SectionBuffers`, `Sweeper.Out`, `Debugger.Debugger`, and the loops of `LexLoop` and `Loader`).
Every such method is proved to compute exactly its specification, error cases included, and the theorems
are stated about the specification, so they hold of the program.

| file | models |
|---|---|
| Words, Text, Options | 16-bit words with explicit wrap-around and C's bitwise operators; characters and numerals |
| Memory, Cpu, Isa | `src/memory.c`, `src/cpu.c`, `src/instruction.c` |
| Machine, Vm, Console | `src/vm.c`: the transition system, the interpreter, standard input and output |
| Arithmetic, Effects, Stack, Faults | what the flags, shifts, jumps, stack and faults mean over every run |
| Loader, Debugger | `src/loader.c`, `src/debugger.c` |
| Lexer, LexLoop | `src/assembler/lexer.c` |
| Syntax, Layout, Symtab, Parser | pass 1 of `src/assembler/parser.c` and `src/assembler/symtab.c` |
| Emit, Assembler, Codegen | pass 2, `assemble_tokens` and `src/assembler.c` |
| Passes, Location, Labels, Executable | the two passes agree; what address every label has; labels can be eliminated; what the loaded program is |
| Disassembler, Sweeper, Listing | `src/disassembler.c`, and what a listing shows |
| Spelling, Sources | every way to write a number or a string; every program has a source |
| Printing, Lines, Reassembly, RoundTrip, Closure | the printed text goes back through the assembler to the same image |

## Main results

- **The round trip, exactly.** For every image the disassembler accepts, assembling its text gives the
  image back, byte for byte, if and only if the image's header is canonical
  (`RoundTrip.RoundTripIffCanonical`). For every source that assembles, the round trip holds if and only if
  its image is canonical, and it is whenever no section passes the top of memory (`Closure.AssembledRoundTrip`,
  `Closure.LoopCloses`). `Closure.TopOfMemoryIsLost` gives a source that assembles and loads and is lost.
- **From source to processor.** In the machine that loads an assembled program, every statement's bytes are
  at the address pass 1 chose, every other byte is zero, execution starts at the first statement of the code
  section, and the processor decodes at every instruction statement exactly that statement
  (`Executable.StatementLoaded`, `Executable.RestIsZero`, `Executable.EntryIsFirstStatement`,
  `Executable.LoadedInstructionDecodes`).
- **Listings.** A sweep shows an instruction exactly where one decodes and ends before the end of the code, and
  the listing of an assembled program whose code section holds instructions only is that program
  (`Listing.SweptLine`, `Listing.ProgramIsListed`).
- **Labels.** Every label has the address of what is written after it, jumps to it decode to a target where that
  instruction decodes, and writing the number in its place gives the same image (`Location.AddressesAreCounted`,
  `Location.JumpReachesLabel`, `Labels.EliminationKeepsImage`).
- **Sources.** Every program of labels, instructions and directives is what its source text lexes and parses to
  (`Sources.SourceReads`).
- **The stack over whole runs.** Memory above SP is an abstract list of words; a CALL and its matching RET
  restore it (`Stack.RunRefines`, `Stack.CallReturns`); a loaded program has room for exactly the words between
  its end and 0xFFFE, and its pushes never reach its code or data (`Loader.StackCapacity`,
  `Loader.PushSparesProgram`).
- **Arithmetic.** C and O are exact for ADD, SUB and MUL; each conditional jump after a comparison tests the
  documented relation; the closed-form shifts are iterated one-bit shifts for all 65,536 counts.
- **Faults are atomic and absorbing**, and a load or a reset gives a machine that depends on the image alone.
- **The debugger's `continue`** is the one number of steps that first meets a stopping condition.

## Model

| member | source | states |
|---|---|---|
| `RoundTrip.RoundTripIffCanonical` | src/disassembler.c:254-377 | for every image the disassembler accepts: its text assembles to the same image, byte for byte, if and only if the header is canonical (code of at least one byte ending at or below 0xFFFF, data above it and inside memory, no byte past the data, no data address without data) |
| `RoundTrip.Reassembles` | src/disassembler.c:283-377 | what the text of any accepted image assembles to: the image rebuilt from its own code, data and header when the regions can be rebuilt, and an error from the assembler in every other case |
| `RoundTrip.CanonicalIsAccepted` | src/loader.c:32-46 | both the disassembler and the loader accept every canonical image |
| `RoundTrip.TextIsItems` | src/disassembler.c:304-359 | assembling a disassembly is assembling exactly the items its lines stand for |
| `RoundTrip.CodePlaces` | src/disassembler.c:318-344 | the heading, the `.org` and the swept lines go through pass 1 as one statement for each line, the cursor following the code |
| `RoundTrip.DataPlaces` | src/disassembler.c:346-359 | the `.data` part goes through pass 1 at the data address if that is not below the code cursor, and is refused otherwise |
| `Closure.LoopCloses` | include/bytevm/disassembler.h:22-31 | source to image to source to image: for every source that assembles without a section passing the top of memory, the loader accepts the image and the second image is the first |
| `Closure.AssembledRoundTrip` | docs/DESIGN.md:885-899 | for every source that assembles: the disassembler accepts the image, and the round trip restores it if and only if the image is canonical |
| `Closure.FittingIsCanonical` | src/assembler.c:50-90 | a program whose sections fit assembles to a canonical image |
| `Closure.TopOfMemoryIsLost` | src/disassembler.c:322-344 | the promise fails at the top of memory: `.org 0xFFFF` and one byte assemble to an image that loads and disassembles, but whose text does not assemble |
| `Closure.WrittenImage` | src/assembler.c:50-90 | a written image has a valid header that reads back as the sections, and its two regions are the slices of the buffers |
| `Passes.PassesAgree` | src/assembler/parser.c:841-888 | for every program that fits: statement intervals increase and are disjoint within a section and lie inside the emitted slice, pass 2 leaves each statement's bytes exactly there, and every other byte of the buffers is zero |
| `Passes.LayOutPlacement` | src/assembler/parser.c:492-495 | pass 1 gives the statements of a section increasing, disjoint intervals between its start and its end |
| `Passes.LayOutSection` | src/assembler/parser.c:255-268 | after pass 1 each section starts before it ends and the data lies above the code |
| `Passes.EmitAllWrites` | src/assembler/parser.c:915-930 | pass 2 over statements laid out without overlap writes each one's bytes at its address and nothing else |
| `Labels.EliminationKeepsImage` | src/assembler/parser.c:725-753 | replacing every label operand by the address pass 1 gave the label, and dropping the definitions, assembles to the identical image, for backward and forward references alike |
| `Labels.LayOutPlain` | src/assembler/parser.c:348-417 | numbers in place of labels get the same modes, sizes and addresses in pass 1 |
| `Labels.EmitAllPlain` | src/assembler/parser.c:803-839 | numbers in place of labels give the same bytes in pass 2, with no symbol table |
| `Executable.EmittedDecodes` | src/assembler/parser.c:781-839 | the bytes emitted for any instruction both passes accept decode, wherever they lie, to its opcode, its modes and its values modulo 65536, and the decoder advances by the size pass 1 assumed |
| `Executable.LoadedInstructionDecodes` | src/instruction.c:131-172 | in the machine that loads what a fitting source assembles to, the processor decodes at each instruction statement's address exactly that statement |
| `Executable.StatementLoaded` | src/loader.c:56-64 | every byte of every statement is in the loaded memory at the address pass 1 gave it |
| `Executable.RestIsZero` | src/loader.c:48-64 | a loaded byte that no statement covers is zero |
| `Executable.EntryIsFirstStatement` | src/assembler/parser.c:255-268 | the loaded program counter is the address of the first statement of the code section |
| `Executable.AcceptedWellFormed` | src/assembler/parser.c:348-417 | an instruction that passes mode resolution and the range check is legal for the decoder |
| `Emit.EmitIsOverlay` | src/assembler/parser.c:841-888 | emitting a statement succeeds exactly when its operands resolve and are in range, and then lays its bytes at its address and changes nothing else |
| `Emit.PutInstructionWrites` | src/assembler/parser.c:781-839 | opcode byte, mode byte and operands written piece by piece, the address wrapping between them, are the encoding laid at the address |
| `Layout.BuildIsLayOut` | src/assembler/parser.c:634-711 | placing each statement as soon as it is parsed is the same as parsing everything first, and fails whenever parsing fails |
| `Assembler.HeaderReadsBack` | src/assembler.c:57-70 | a written header carries magic, version and reserved byte, and its five words read back |
| `Assembler.SourceIsItems` | src/assembler.c:17-93 | a source that assembles reads as a list of items that assembles to the same image |
| `Disassembler.SweepPartitions` | src/disassembler.c:322-344 | the sweep covers every byte from its start to its end exactly once, in order and none beyond, with raw bytes and well-formed instructions only |
| `Disassembler.SweepAddresses` | src/disassembler.c:322-344 | each line of a sweep starts where the bytes of the lines before it end |
| `Disassembler.CodeLinesPartition` | src/disassembler.c:296-344 | when the code ends at or below 0xFFFF the lines stand for exactly the code bytes of the image |
| `Disassembler.CodeLinesLost` | src/disassembler.c:323-324 | when the code ends at or past 0x10000 the 16-bit end has wrapped and nothing is swept |
| `Reassembly.LinePlaces` | src/disassembler.c:334-343 | each emitted line becomes one statement of the same size and the same bytes, so addresses stay in step |
| `Reassembly.InstructionMeaning` | src/disassembler.c:165-223 | a printed instruction assembles to the encoding it was decoded from |
| `Reassembly.ModesRead` | src/assembler/parser.c:348-417 | mode resolution gives a printed instruction the modes it was decoded with, bare and bracketed operands alike |
| `Reassembly.LinesEmit` | src/assembler/parser.c:841-888 | reassembled code lines write the swept bytes back where they came from |
| `Reassembly.LinesPlace` | src/assembler/parser.c:634-711 | a run of code lines is placed as one statement for each line, each after the bytes of the one before |
| `Lines.TextReads` | src/assembler/parser.c:634-711 | the text of any list of printable lines lexes, and parses to the items those lines stand for |
| `Lines.LineReads` | src/assembler/parser.c:634-686 | the tokens of one printed line parse to that line's items and leave the rest of the source alone |
| `Lines.LineLexes` | src/assembler/lexer.c:63-313 | one printed line lexes to its tokens and a newline, and the line number moves on by one |
| `Lines.InstructionLexes` | src/disassembler.c:208-223 | a printed instruction lexes to its mnemonic and operands |
| `Lines.OperandReads` | src/assembler/parser.c:272-338 | a printed operand parses to the operand it was printed from |
| `Printing.LexDecimal` | src/assembler/lexer.c:239-290 | a decimal numeral lexes to one number token with the value printed |
| `Printing.LexHex` | src/assembler/lexer.c:239-290 | a `0x` numeral of fixed width lexes to one number token with the value printed |
| `Printing.MnemonicLooksUp` | src/assembler/parser.c:152-162 | the assembler's mnemonic table inverts the disassembler's, for all 33 opcodes |
| `Printing.SyscallLooksUp` | src/assembler/parser.c:164-174 | the assembler's syscall names invert the disassembler's |
| `Printing.RegisterReads` | src/assembler/parser.c:180-202 | `R0` to `R7` parse back to their index |
| `Printing.OperandLexes` | src/disassembler.c:165-198 | every operand the disassembler prints lexes to the tokens of its syntax |
| `Lexer.LexLines` | src/assembler/lexer.c:63-313 | lexing `a`, a newline and `b` is the tokens of `a`, a newline token, and the tokens of `b` with its lines shifted; an error in `a` comes first |
| `Lexer.TokenLines` | src/assembler/lexer.c:84-93 | each token's line is the first line plus the newline tokens before it |
| `Lexer.LastLine` | src/assembler/lexer.c:311-312 | the final token carries the first line plus the newlines of the source |
| `Lexer.LexOneLocal` | src/assembler/lexer.c:63-313 | what a lexeme is does not depend on anything after the end of its line |
| `Text.DecimalReads` | src/assembler/lexer.c:239-290 | decimal digits denote the number they were printed from |
| `Text.HexReads` | src/assembler/lexer.c:239-290 | hexadecimal digits denote the number they were printed from when the width holds it |
| `LexLoop.LexSource` | src/assembler/lexer.c:63-313 | the lexing loop returns exactly the token list, or the line and fault, of the specification, for every source |
| `LexLoop.LexAt` | src/assembler/lexer.c:74-308 | one turn of the loop recognises the lexeme at its position |
| `LexLoop.LexNumeral` | src/assembler/lexer.c:239-281 | signs, `0x` digits and decimal digits accumulate to the numeral's value |
| `LexLoop.LexLiteral` | src/assembler/lexer.c:137-236 | a string literal gives its bytes after escapes, or the fault the specification names |
| `Symtab.SymbolTable.Define` | src/assembler/symtab.c:39-66 | a new name is added with its address; a name already there is refused and the table kept |
| `Symtab.SymbolTable.Lookup` | src/assembler/symtab.c:27-37 | the search finds the address of a name exactly when the name is in the table |
| `Symtab.TableEntry` | src/assembler/symtab.c:27-66 | with unique names each entry is the one found under its name |
| `Parser.Parser.BuildStatements` | src/assembler/parser.c:688-711 | the parser object ends with the statements, symbols and sections of pass 1, or with the first error and its line |
| `Parser.Parser.ParseLine` | src/assembler/parser.c:634-686 | one line: labels, then at most one statement, placed as the specification says |
| `Parser.Parser.ParseOperand` | src/assembler/parser.c:272-338 | one operand read at the current token, bracketed or bare |
| `Parser.Parser.ParseInstructionStatement` | src/assembler/parser.c:437-500 | operands parsed, counted and resolved, and the statement placed at the cursor |
| `Parser.Parser.ParseDirectiveStatement` | src/assembler/parser.c:502-632 | each directive read and placed, with its own errors |
| `Parser.ResolveModes` | src/assembler/parser.c:455-489 | operand count and modes as the legality table asks, the first operand's error first |
| `Codegen.SectionBuffers.EmitStatements` | src/assembler/parser.c:915-930 | pass 2 over all statements leaves the buffers, or the error, of the specification |
| `Codegen.SectionBuffers.EmitInstruction` | src/assembler/parser.c:803-839 | operands resolved, checked and written into the section's buffer in place |
| `Codegen.SerializeImage` | src/assembler.c:50-90 | header and slices written field by field are the image |
| `Codegen.AssembleTokenList` | src/assembler/parser.c:892-939 | both passes over a token list |
| `Codegen.AssembleSource` | src/assembler.c:17-93 | the assembler as the program runs it returns the specified image or error for every source, so every theorem above is about it |
| `Sweeper.DisassembleImage` | src/disassembler.c:254-377 | the disassembler as the program runs it returns the specified text or refusal for every input |
| `Sweeper.PrintImage` | src/disassembler.c:296-359 | the copy, the sweep loop and the data loop print the lines of the image in order |
| `Sweeper.Out.PrintSweep` | src/disassembler.c:322-344 | the sweep loop appends the lines of the sweep |
| `Sweeper.Out.PrintInstruction` | src/disassembler.c:208-223 | appends the mnemonic and its operands in source syntax |
| `Sweeper.CopyCode` | src/disassembler.c:304-307 | the copying loop lays the code at addresses that wrap at 16 bits |
| `Isa.DecodeThenEncode` | src/instruction.c:131-172 | whatever decodes is legal, and encodes to exactly the bytes consumed |
| `Isa.EncodeThenDecode` | src/instruction.c:131-172 | the bytes of a legal instruction, wherever they lie, even across the top of memory, decode to it |
| `Isa.Fetch` | src/instruction.c:131-172 | the decoder on the memory array: the instruction and the advanced PC, or the fault with the PC kept |
| `Isa.FetchOperand` | src/instruction.c:79-114 | one operand by its mode, refusing register indices above 7 |
| `Memory.ReadBack` | src/memory.c:20-29 | a word written is the word read, at 0xFFFF as well |
| `Memory.Ram.LoadWord` | src/memory.c:20-23 | reads a little-endian word whose second byte wraps |
| `Memory.Ram.StoreWord` | src/memory.c:25-29 | writes the two bytes of a word, the second at a wrapping address, and nothing else |
| `Cpu.FlagIndependence` | src/cpu.c:13-26 | setting a flag gives it its value and leaves the other three alone |
| `Cpu.SetFlagReserved` | src/cpu.c:18-26 | setting a flag never touches bits 4 to 15 |
| `Cpu.Processor.Init` | src/cpu.c:5-11 | registers, PC and flags zero, SP 0xFFFE |
| `Cpu.Processor.AssignFlag` | src/cpu.c:18-26 | sets or clears the one flag in place |
| `Interpreter.VM.VmStep` | src/vm.c:594-615 | one fetch, decode and execute on the objects is one step of the transition system, in every state |
| `Interpreter.VM.InstructionExecute` | src/vm.c:519-592 | the dispatch over 33 opcodes updates the machine as the transition system says |
| `Interpreter.VM.ExecAdd` | src/vm.c:107-120 | registers and flags after ADD |
| `Interpreter.VM.ExecSub` | src/vm.c:122-134 | registers and flags after SUB |
| `Interpreter.VM.ExecMul` | src/vm.c:136-155 | registers and flags after MUL |
| `Interpreter.VM.ExecDiv` | src/vm.c:157-173 | registers and flags after DIV, or the fault |
| `Interpreter.VM.ExecMod` | src/vm.c:175-189 | registers and flags after MOD, or the fault |
| `Interpreter.VM.ExecShl` | src/vm.c:229-241 | registers and flags after SHL |
| `Interpreter.VM.ExecShr` | src/vm.c:243-255 | registers and flags after SHR |
| `Interpreter.VM.ExecCmp` | src/vm.c:261-272 | flags after CMP, no register written |
| `Interpreter.VM.ExecPush` | src/vm.c:380-396 | memory and SP after PUSH, or the overflow fault |
| `Interpreter.VM.ExecPop` | src/vm.c:398-409 | register and SP after POP, or the underflow fault |
| `Interpreter.VM.ExecCall` | src/vm.c:417-429 | return address, SP and PC after CALL, or the overflow fault |
| `Interpreter.VM.ExecRet` | src/vm.c:431-443 | PC and SP after RET, or the underflow fault |
| `Interpreter.VM.ExecSys` | src/vm.c:490-512 | streams, R0 and halting after each system call |
| `Machine.RunSplit` | src/vm.c:594-615 | running j + k steps is running j steps and then k |
| `Arithmetic.FlagsAreExact` | src/vm.c:107-155 | for all operands of ADD, SUB and MUL: the result is right modulo 65536 read unsigned or signed; C is set exactly when the unsigned result does not fit, O exactly when the signed one does not |
| `Arithmetic.ArithmeticInstruction` | src/vm.c:107-155 | the same of an executed instruction, its second operand in a register or written out: register, C, O, Z and S |
| `Arithmetic.JumpsMeanRelations` | docs/DESIGN.md:268-279 | each jump, on the flags a comparison leaves, tests the signed or unsigned relation documented for it |
| `Arithmetic.ComparisonThenJump` | src/vm.c:261-376 | after CMP a, b, each in a register or written out, and any number of steps that leave FLAGS alone, the jump is taken if and only if the relation holds of a and b |
| `Arithmetic.ShiftLeftIsIterated` | src/vm.c:54-66 | for every count 0 to 65535 the closed form gives the value and carry of that many one-bit left shifts |
| `Arithmetic.ShiftRightIsIterated` | src/vm.c:68-80 | the same of right shifts |
| `Arithmetic.AddOverflowSigns` | src/vm.c:115-115 | the bit formula for O after ADD compares the three signs |
| `Arithmetic.SubOverflowSigns` | src/vm.c:129-129 | the bit formula for O after SUB compares the three signs |
| `Effects.StepFrame` | src/vm.c:519-592 | a step changes at most the register, memory word, flags, control transfer and stream that belong to its instruction |
| `Effects.DivisionMeaning` | src/vm.c:157-189 | DIV and MOD fault together exactly on a zero divisor, and otherwise leave quotient and remainder of one division with C and O as before |
| `Effects.LogicMeaning` | src/vm.c:193-227 | AND, OR, XOR and NOT act bit by bit, set Z and S, and leave C and O |
| `Effects.StoreThenLoad` | src/vm.c:90-103 | LOAD brings back what STORE put at the same address, however either names it, even at 0xFFFF |
| `Effects.PushThenPop` | src/vm.c:380-409 | POP after PUSH gives back the pushed word, from a register or written out, and the stack pointer |
| `Effects.ReadThenPrint` | src/vm.c:490-512 | READ_INT then PRINT_INT prints the number typed when it fits in a signed word, and it reduced to 16 bits otherwise |
| `Stack.RunRefines` | src/vm.c:380-443 | over any run in which no STORE hits the stack, the words above SP are exactly the abstract list of pushed values and return addresses |
| `Stack.StepRefines` | src/vm.c:380-443 | one step acts on the abstract stack as the push or pop it performs |
| `Stack.CallReturns` | src/vm.c:417-443 | from a CALL to its matching RET: execution resumes right after the CALL with SP and the stack restored |
| `Stack.PopGivesTop` | src/vm.c:398-443 | POP and RET take the top of the abstract stack |
| `Stack.BottomStays` | src/vm.c:380-443 | what lies under the stack's lowest depth of a run is untouched at its end |
| `Stack.StackPointerCounts` | src/vm.c:380-443 | SP is its start less twice the words pushed and not popped |
| `Stack.RunKeepsInv` | src/vm.c:389-394 | every run keeps SP even and within its bounds |
| `Faults.FaultIsAtomic` | src/vm.c:594-615 | a failing step changes no register, flag, SP, memory byte or stream, halts, and records the code and the PC before the fetch |
| `Faults.FaultIsAbsorbing` | src/vm.c:594-599 | any number of later steps changes nothing and returns the same error |
| `Faults.StepFaults` | src/vm.c:594-615 | exactly which error a step gives, if any |
| `Faults.ExecuteFaults` | src/vm.c:519-592 | exactly which instructions fail and with what, and that failing changes nothing |
| `Faults.RunKeepsStatus` | src/vm.c:594-615 | an error recorded means halted, and reserved flags stay clear, over every run |
| `Console.Streams.ReadIntFromStdin` | src/vm.c:457-488 | the loops over standard input return the specified word and leave the specified rest |
| `Console.ReadIntReads` | src/vm.c:457-488 | READ_INT gives the signed decimal value of the digits modulo 65536, 0 without digits, and stops at the first non-digit |
| `Console.EveryInputIsNumeral` | src/vm.c:457-488 | every input has that shape, so the value is settled for every input |
| `Console.LowBitsSurvive` | src/vm.c:486-487 | the wrapping accumulator keeps the low 16 bits, negated or not |
| `Loader.VmLoad` | src/loader.c:10-80 | the loader on the objects: rejection changes nothing, acceptance gives the loaded state, which takes nothing but the streams from before |
| `Loader.CopyRegion` | src/loader.c:56-64 | the copying loop lays a region over memory |
| `Loader.CopiesAreLoadedMemory` | src/loader.c:48-64 | two copies into zeroed memory are, because the regions are apart, the memory the image describes |
| `Loader.LoadedMemoryExact` | src/loader.c:48-64 | each loaded byte: of the code, of the data, or zero |
| `Loader.ReachableInvariant` | src/loader.c:66-80 | in every state a loaded program reaches: SP even, between the end of code and data and 0xFFFE, counting the words pushed; reserved flags clear; an error code only when halted |
| `Loader.PushSparesProgram` | src/vm.c:389-394 | in every reachable state PUSH and CALL write without wrapping and never over a loaded byte |
| `Loader.PopStaysInside` | src/vm.c:401-407 | in every reachable state POP and RET read without wrapping |
| `Debugger.Debugger.CmdContinue` | src/debugger.c:101-131 | from a running machine: k steps to the first halt or breakpoint or to the limit, the breakpoints kept, and a report that says which; from a halted one nothing |
| `Debugger.ContinueIsRun` | src/debugger.c:101-131 | continue is k steps for the one k in 1 to 10,000,000 that first halts, meets a breakpoint or reaches the limit |
| `Debugger.StopIsUnique` | src/debugger.c:101-131 | there is only one such k |
| `Debugger.Debugger.CmdStep` | src/debugger.c:84-99 | `step n`, with its early exit on a halt, is n steps of the machine and keeps the breakpoints |
| `Debugger.Debugger.CmdBreak` | src/debugger.c:133-150 | adds the address to a duplicate-free table of at most 64 |
| `Debugger.Debugger.CmdDelete` | src/debugger.c:152-169 | swap-delete removes the address and nothing else |
| `Debugger.Debugger.HasBreakpoint` | src/debugger.c:20-29 | the search is membership |
| `Debugger.Debugger.CmdReset` | src/debugger.c:249-260 | reloads the image and keeps the breakpoints |
| `Debugger.SwapDeleteElements` | src/debugger.c:152-169 | moving the last entry into the gap removes one element and keeps the table duplicate-free |
| `Debugger.ResetIsFreshLoad` | src/debugger.c:249-260 | after any history of commands, reset gives the freshly loaded machine with the breakpoints the history left |
| `Debugger.HistoryBreakpoints` | src/debugger.c:133-169 | the breakpoints after a history depend on its break and delete commands alone |
| `Listing.SweptLine` | src/disassembler.c:323-344 | each line of a sweep, at the address where the bytes of the lines before it end, is the instruction that decodes there if it lies wholly before the end of the code, and the byte there otherwise |
| `Listing.InstructionsAreListed` | src/disassembler.c:323-344 | code that is a sequence of encoded legal instructions is listed as exactly those instructions |
| `Listing.ProgramIsListed` | src/disassembler.c:323-344 | the listing of an assembled program whose code section holds instructions only is that program, instruction by instruction |
| `Listing.HelloHeading` | hello.dis.asm:2-2 | the size comment of the listing of `hello` |
| `Listing.HelloMoves` | hello.dis.asm:4-5 | the text of a move of an immediate and of a load through a register |
| `Listing.HelloArithmetic` | hello.dis.asm:6-9 | the text of arithmetic on an immediate |
| `Listing.HelloBranch` | hello.dis.asm:7-7 | the text of a conditional jump, its address in hexadecimal and bare |
| `Listing.HelloJump` | hello.dis.asm:10-10 | the text of a jump |
| `Listing.HelloSystem` | hello.dis.asm:8-11 | the text of a named system call and of HALT |
| `Listing.HelloBytes` | hello.dis.asm:13-14 | the text of the data directives and of `.org` |
| `Location.AddressesAreCounted` | src/assembler/parser.c:634-686 | for every program pass 1 accepts: each label and each statement with bytes has as its address the count of the bytes written before it since the last `.org`, and the table gives each label that address |
| `Location.SymbolsAreLabels` | src/assembler/parser.c:634-686 | the names in the table are exactly the labels so far |
| `Location.LabelsAreUnique` | src/assembler/parser.c:634-686 | no label is defined twice |
| `Location.LabelIsNextStatement` | src/assembler/parser.c:634-686 | a label stands for the address of the statement written after it, other labels apart |
| `Location.LabelIsEndOfPrevious` | src/assembler/parser.c:634-686 | a label stands for the address just past the statement written before it, other labels and `.data` apart |
| `Location.LabelIsEnd` | src/assembler/parser.c:634-686 | a label with only labels after it stands for the end of its section |
| `Location.LabelDecodes` | src/assembler/parser.c:725-753 | in the loaded machine, decoding at a label's address gives the instruction written after the label |
| `Location.JumpReachesLabel` | src/assembler/parser.c:725-753 | a jump or CALL to a label, forward or backward, decodes to a target where the instruction written after the label decodes |
| `Layout.SyntaxDecides` | src/assembler/parser.c:348-417 | what each operand syntax is accepted as: registers and brackets where their mode is legal, a bare value exactly where one mode without a register is legal |
| `Emit.AcceptedExactly` | src/assembler/parser.c:725-779 | an operand is refused exactly when its label is undefined or its number has no encoding: 16-bit fields take the unsigned and signed readings of words, 8-bit fields the bytes |
| `Executable.StatementSlice` | src/loader.c:53-64 | a statement's bytes are a slice of the loaded memory that ends inside memory |
| `Executable.DataLoaded` | src/assembler/parser.c:841-888 | `.string` leaves its bytes in order and a NUL, `.word` its low 16 bits low byte first, `.byte` its value |
| `Sources.SourceReads` | src/assembler/parser.c:634-711 | every program of labels, instructions and directives, one to a line, is what its source text lexes and parses to |
| `Sources.SourceAssembles` | src/assembler.c:17-93 | assembling the source text of a program is assembling the program |
| `Sources.LabelBeforeStatement` | src/assembler/parser.c:634-686 | a label and a statement on the same line are both read |
| `Sources.RegisterIsName` | src/assembler/parser.c:180-202 | `Rn` reads as register n for every n up to 9999, whether or not there is such a register |
| `Sources.LongRegisterIsLabel` | src/assembler/parser.c:180-202 | from `R10000` on the name is a label, not a register |
| `Spelling.NumberLexes` | src/assembler/lexer.c:239-281 | every numeral, with or without a minus sign, decimal or hexadecimal with either prefix, lexes to its value |
| `Spelling.StringLexes` | src/assembler/lexer.c:137-236 | every string literal lexes to the bytes its characters and escapes stand for |
| `Spelling.BlankLexes` | src/assembler/lexer.c:77-80 | a space, tab or carriage return is skipped |
| `Spelling.CaseIsIgnored` | src/assembler/parser.c:140-202 | mnemonics, system calls and registers are read without regard to letter case |
| `Text.DigitMeaning` | src/assembler/lexer.c:259-264 | hexadecimal digits mean their values, the letters in either case |
| `Isa.DecodeFailsExactly` | src/instruction.c:131-172 | decoding fails exactly where no legal instruction is encoded: with an invalid opcode when the byte is no opcode's, with an invalid mode otherwise |
| `Isa.LegalIsListed` | docs/DESIGN.md:452-464 | the legal pairs of modes are those of the normative table |
| `Isa.WorkedEncodings` | docs/DESIGN.md:403-414 | worked encodings of the design |
| `Isa.MoreWorkedEncodings` | docs/DESIGN.md:416-435 | further worked encodings of the design |
| `Isa.OnlyOpcodes` | src/instruction.c:131-145 | the bytes that are opcodes |
| `Isa.MoveOpcodes` | include/bytevm/opcode.h:14-46 | opcode bytes of moves and the stack |
| `Isa.ArithmeticOpcodes` | include/bytevm/opcode.h:14-46 | opcode bytes of arithmetic and comparison |
| `Isa.BitwiseOpcodes` | include/bytevm/opcode.h:14-46 | opcode bytes of bitwise operators and shifts |
| `Isa.JumpOpcodes` | include/bytevm/opcode.h:14-46 | opcode bytes of jumps |
| `Isa.MoreJumpOpcodes` | include/bytevm/opcode.h:14-46 | opcode bytes of the remaining jumps |
| `Isa.ControlOpcodes` | include/bytevm/opcode.h:14-46 | opcode bytes of calls, system calls and HALT |
| `Cpu.FlagPositions` | include/bytevm/cpu.h:15-20 | a FLAGS word is Z, C, S and O in bits 0 to 3 |
| `Arithmetic.SumThenJump` | src/vm.c:107-376 | the same for a jump after ADD, by the sum modulo 65536, the unsigned sum and the signed sum; sums reach flags no comparison leaves |
| `Arithmetic.EveryOperandSupplies` | src/vm.c:24-34 | every operand an instruction computes with is a register holding a word or a word written out, and stands for that word alone |
| `Effects.MoveMeaning` | src/vm.c:84-88 | MOV puts the word of its second operand in its register and does nothing else |
| `Effects.LoadMeaning` | src/vm.c:90-95 | LOAD puts the two bytes at its address, low byte first and wrapping, in its register and does nothing else |
| `Effects.StoreMeaning` | src/vm.c:97-103 | STORE writes the two bytes of its register at its address and does nothing else |
| `Effects.ShiftMeaning` | src/vm.c:229-255 | SHL and SHR shift their register one place as many times as the count says; C is the last bit out, O as before |
| `Effects.PushMeaning` | src/vm.c:380-396 | PUSH with room stores its operand's word and moves SP down by two; without room it changes nothing |
| `Effects.PopMeaning` | src/vm.c:398-443 | POP and RET fail exactly on the empty stack, and otherwise take the word above SP |
| `Effects.CallMeaning` | src/vm.c:417-429 | CALL with room stores the address of the next instruction and goes to its target; without room it changes nothing |
| `Effects.SystemMeaning` | src/vm.c:490-592 | what NOP, HALT and each system call do, in full |
| `Loader.PushFaultsExactly` | src/loader.c:66-77 | in every reachable state PUSH and CALL overflow exactly when SP is below 2, or the next word would start under the end of code and data, or the program reaches the top of memory |
| `Loader.StackCapacity` | src/loader.c:66-77 | a loaded program can have exactly as many words on its stack as there are from its end to 0xFFFE |
| `Loader.AcceptedExactly` | src/loader.c:12-46 | exactly which files the loader accepts, in terms of their bytes and of addresses in both regions; every other is refused and changes nothing |
| `Loader.HeaderOffsets` | docs/DESIGN.md:708-719 | the header's words are little-endian at their documented offsets |
| `Loader.LoadedStart` | src/loader.c:48-66 | a loaded machine starts at the entry point with registers, flags and errors clear and SP at 0xFFFE |

## Where the code and its documentation differ

The model follows the code.

- `include/bytevm/disassembler.h` promises the round trip for every image. The code keeps it exactly for
  canonical images: `end` in `disassemble` has 16 bits, so code that ends at 0x10000 is not swept at all.
- `docs/DESIGN.md`, section 12, says the walk starts at the entry point and prints an address before each
  instruction. The code starts at the code address, refuses images whose entry point differs from it, and
  prints no addresses.
- `docs/DESIGN.md`, section 10, refuses overlapping regions. The loader also refuses an empty data region whose
  address lies strictly inside the code.
- `R8` to `R9999` are registers out of range; from `R10000` on the name is a label (`Sources.LongRegisterIsLabel`).
- `.word` takes any number and keeps its low 16 bits; no range is checked, unlike for immediates and `.byte`.

## Left out

- Numeric literals and line numbers are unbounded integers; the C code's `int64_t` and `int` overflow on longer ones is not modelled.
- Running past a 64 KB section buffer is undefined in C (a program that wraps a section counter, or a slice past the end of a buffer); the model stops with the error `Overrun` there.
- Memory exhaustion: `malloc` and `realloc` failures, the doubling of capacities, and the freeing functions; lists and buffers are sequences or arrays of sufficient size.
- The wording of error messages; an error is a code and, in the assembler, a line.
- `src/main.c`: files, arguments and exit codes.
- The debugger's command line and displays (`debugger_repl`, `debugger_execute`, `strtol` parsing, registers, memory and stack dumps, `disassemble_one`); a command arrives already parsed, with its argument present, absent or malformed.
- Standard input is a byte sequence consumed from the front and standard output a list of printed items; buffering and terminal behaviour are not part of this model.
- Locale: letters, digits and white space are those of the C locale.
- `out_printf` formats each piece through a 256-byte buffer; no piece the disassembler prints is that long, and the buffer is not modelled.
- `exec_mov`, `exec_load`, `exec_store` and the bitwise `exec_*` are methods of `Interpreter.VM` like the rest; they have no rows of their own because `Effects.MoveMeaning`, `Effects.LoadMeaning`, `Effects.StoreMeaning` and `Effects.LogicMeaning` say more.
- `vm_result_str` and the other one-line lookups of names.
