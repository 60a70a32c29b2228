# A verified model of the guest-code translation pipeline

The program is a small binary translator. It decodes x86-64 guest code with a
table-driven decoder, turns each instruction into operations of a linear
intermediate representation (IR) in a growing byte buffer, and runs blocks of
them in one of two ways: an interpreter that walks the buffer, or an LLVM
backend that lowers it to a control-flow graph. A run loop caches operation
lists and compiled code per guest address. Around it are a pause protocol for
memory mapping on all threads, the address space, and a test harness with a
hand-built loop.

The project models these parts and proves, for all inputs and all runs, that they
fit together:

- **Decoder** (`X86Tables`, `Decoder`, `DecoderRoundTrip`, `Encodings`): the goto
  loop as methods, proved against a decoding function, the round trip from
  encodings, and the way from bytes in memory to a handler.
- **Buffer** (`IRList`): the byte vector with its structures, growth, pointers
  into it, and the walk by `GetSize`.
- **Builder** (`Handlers`, `HandlerShapes`, `Builder`): what each handler appends,
  as values and as the method that appends it, back-patching included.
- **Translation** (`Translate`, `SuffixClosure`, `SuffixExactness`, `Core`): the block loop as a
  function of guest memory, and as the method that fills the builder.
- **Meaning** (`Machine`, `Operators`, `BlockMeaning`, `Flags`, `Arithmetic`,
  `Effects`, `Simulation`, `GuestBytes`, `OtherEffects`, `DispatchedBytes`):
  operations, streams and blocks, the guest instructions they simulate, what the
  other handlers do, and all of these byte by byte.
- **Backends** (`Interpreter`, `Lowering`, `LoweringProofs`, `StreamShape`,
  `GraphShape`, `Compilable`, `LinkedLoops`, `Backends`, `JumpingBlock`, `LLVM`, `StaleLinks`): both backends
  as methods and as functions, their agreement, and the links that turn guest
  loops into loops of the graph.
- **Run loop** (`Core`, `RunLoop`, `WholeRuns`): caches, the loop with them
  against the loop without them, and whole runs against the guest's execution.
- **Surroundings** (`Pause`, `Memmap`, `HarnessLoop`).

`Words` has 64-bit words as integers with explicit wrap-around and bitwise
operators by digits; `IR` the operations, their sizes and offsets.

## What the code does that a reader may not expect

The model keeps these as they are; several results are stated around them.

- The two backends read a conditional jump with opposite polarity, and CMP writes
  the zero flag complemented to suit the LLVM backend. A `Dialect` says which
  polarity, whether markers are accepted, and whether jumps are linked backward.
- The interpreter has no case for `OP_RIP_MARKER`, which every block contains.
  `TestCompilation` takes a flag that makes markers no-ops; without it every
  block aborts (`InterpreterAbortsOnMarkers`).
- The negating form of `GetFlagBit` emits an XOR that reads itself. Jumps on OF,
  CF, ZF, SF and PF themselves go through it; `NoSelfReference` excludes exactly
  those, and no block with one compiles.
- The decoder's two-byte case switches on the byte behind the opcode.
- `CMPOp` and `JccOp` compare addresses with constants. They are abstracted as
  `Guards`; `SOURCE_GUARDS` has the program's constants.
- `BlockJumpTargets` and `Values` survive a compilation. The first can make a
  later function branch into an earlier one. With the program's own guard at
  most one block can have jumps, and then it cannot (`WholeRuns.Start`).
- A write through a pointer taken before the byte vector grew is lost. The field
  `sound` of the list records that nothing was lost so far; it stays true while
  streams fit in the vector.
- A thread may still be on its way out of the last round when a thread begins
  the next one by setting the flag (`RoundIsSafeExactlyWhen`).

## Model

| member | source | states |
|---|---|---|
| Decoder.GetInstInfo | Source/Core/CPU/X86Tables.cpp:330-569 | the decoder's goto loop computes the decoding function: table entry, flags and length; a result is 1 to 15 bytes long |
| Decoder.OnceMore | Source/Core/CPU/X86Tables.cpp:340-553 | one pass from the label to the backward goto: which prefix, escape or opcode case is taken, and whether another pass follows |
| Decoder.OperandBytes | Source/Core/CPU/X86Tables.cpp:346-434 | what an opcode's entry adds to the length, and the ModRM and SIB flags |
| Decoder.AddressBytes | Source/Core/CPU/X86Tables.cpp:360-407 | a SIB byte is present, and how many displacement bytes follow, by mod, rm and SIB base |
| Decoder.SizeInRange | Source/Core/CPU/X86Tables.cpp:330-569 | a decoded instruction is longer than the prefixes before it and at most 15 bytes |
| DecoderRoundTrip.RecoversOne | Source/Core/CPU/X86Tables.cpp:330-569 | from any well-formed encoding (prefixes, REX last, opcode, ModRM, SIB, displacement, immediate) the decoder recovers entry, flags and exact length, for any tables |
| DecoderRoundTrip.DivertedIsLost | Source/Core/CPU/X86Tables.cpp:449-477 | a two-byte opcode followed by 0F, 38 or 3A is not recovered: the switch looks at the byte behind the opcode |
| DecoderRoundTrip.RecoversExactlyWhen | Source/Core/CPU/X86Tables.cpp:449-477 | with the program's tables a well-formed instruction is recovered if and only if it is not one of those |
| DecoderRoundTrip.RecoversStream | Source/Core/CPU/X86Tables.cpp:330-569 | for any tables, repeated decoding of a concatenation of encodings recovers every boundary and all flags if no diverting byte follows a two-byte opcode |
| DecoderRoundTrip.RecoversStreamExactlyWhen | Source/Core/CPU/X86Tables.cpp:330-569 | with the program's tables, it does so if and only if none follows |
| DecoderRoundTrip.DivertedPair | Source/Core/CPU/X86Tables.cpp:449-477 | CPUID followed by SYSCALL, the bytes 0F A2 0F 05, is decoded as three bytes of no known instruction |
| X86Tables.UnknownOpIsUnreachable | Source/Core/CPU/OpcodeDispatch.cpp:1245-1307 | the handler that asserts is installed only at entries of unknown type, so it is never dispatched |
| Encodings.InstalledBase | Source/Core/CPU/OpcodeDispatch.cpp:1246-1277 | each installed one-byte opcode has its handler, pair by pair |
| Encodings.InstalledJump | Source/Core/CPU/OpcodeDispatch.cpp:1255-1270 | the opcodes 70 to 7F have the jump handlers of their sixteen conditions, in order |
| Encodings.NothingElseInstalled | Source/Core/CPU/OpcodeDispatch.cpp:1246-1277 | no other one-byte opcode has a handler |
| Encodings.InstalledElsewhere | Source/Core/CPU/OpcodeDispatch.cpp:1279-1290 | the two-byte opcodes and the opcodes told apart by the `reg` field that have a handler, with it, and no others |
| Encodings.RegisterIs | Source/Core/CPU/OpcodeDispatch.cpp:49-68 | the sixteen encoded registers by their numbers in the register file: 0, 2, 3, 1, 7, 6, 4, 5, 8 to 15 |
| Encodings.FetchedByte | Source/Core/CPU/CPUCore.cpp:458-460 | byte k of the decoder's window is the byte of memory k behind the address, modulo 2^64 |
| Encodings.EncodingDispatches | Source/Core/CPU/CPUCore.cpp:458-480 | every well-formed encoding in memory, undiverted, is handed to the handler of its entry with its exact size and flags, unless it is locked or has no handler |
| IRList.ReadWritten | Source/Core/CPU/IntrusiveIRList.h:31-40 | a structure field that fits its width reads back as written |
| IRList.StructAt | Source/Core/CPU/IR.h:61-255 | the structure seen through a header has the size the size table gives its number |
| IRList.SizesAgree | Source/Core/CPU/IR.h:205-255 | the size table agrees with the structures, operation by operation |
| IRList.HeldIsRead | Source/Core/CPU/IR.h:61-195 | once header and fields are assigned, the structure reads back as exactly that operation |
| IRList.OpIsLocal | Source/Core/CPU/IntrusiveIRList.h:53-55 | an operation depends on the bytes of its own structure only |
| IRList.WalkRecovers | Source/Core/CPU/IntrusiveIRList.h:31-55 | stepping by `GetSize` yields a list of operations if and only if the bytes are laid out as that list: offsets, order and field values |
| IRList.RepresentsLonger | Source/Core/CPU/IntrusiveIRList.h:31-40 | one more structure behind the others leaves them intact, also when the vector has moved |
| IRList.RepresentsPatched | Source/Core/CPU/IntrusiveIRList.h:31-40 | writing fields of operation k changes that operation, within its kind, and no other |
| IRList.DoublingSuffices | Source/Core/CPU/IntrusiveIRList.h:24-25 | one doubling always makes room if and only if the vector is at least as large as the largest operation |
| IRList.ExtendsTwice | Source/Core/CPU/IntrusiveIRList.h:31-40 | appending twice is appending the concatenation, including when anything can be lost |
| IRList.IntrusiveIRList.constructor | Source/Core/CPU/IntrusiveIRList.h:12-14 | an empty list of the given capacity |
| IRList.IntrusiveIRList.Copy | Source/Core/CPU/IntrusiveIRList.h:16-22 | the copy holds the same operations, in a vector of exactly their length |
| IRList.IntrusiveIRList.CheckSize | Source/Core/CPU/IntrusiveIRList.h:24-25 | growth keeps all bytes, doubles the vector and moves it; otherwise nothing changes |
| IRList.IntrusiveIRList.AllocateOp | Source/Core/CPU/IntrusiveIRList.h:31-40 | appends a structure of which only the header is written, at the old offset; nothing is lost if it fits |
| IRList.IntrusiveIRList.Write | Source/Core/CPU/IntrusiveIRList.h:31-40 | a field assignment through a pointer changes that operation; through a pointer into a replaced vector it is lost |
| IRList.IntrusiveIRList.WriteFields | Source/Core/CPU/IntrusiveIRList.h:31-40 | assigning every field makes the last operation the intended one and keeps the others |
| IRList.IntrusiveIRList.Put | Source/Core/CPU/IntrusiveIRList.h:31-40 | allocation and assignments together append exactly that operation |
| IRList.IntrusiveIRList.Reset | Source/Core/CPU/IntrusiveIRList.h:51 | the list is empty again; the vector stays |
| IRList.IntrusiveIRList.WalkSeesOps | Source/Core/CPU/IntrusiveIRList.h:49-60 | in every valid state the walk over the bytes sees the operations written, each at its offset |
| HandlerShapes.AcceptedAreGood | Source/Core/CPU/OpcodeDispatch.cpp:101-960 | an accepted handler's operations name earlier values of the same handler only, if and only if it is not a jump on OF, CF, ZF, SF or PF itself |
| HandlerShapes.GetFlagBitClosed | Source/Core/CPU/OpcodeDispatch.cpp:1167-1202 | the flag test is closed exactly when it does not negate: the negating XOR reads itself |
| HandlerShapes.RejectedOnlyCompute | Source/Core/CPU/OpcodeDispatch.cpp:101-193 | what a failing handler has appended contains no store, system call, jump or block end; only ADD and LEA leave anything |
| HandlerShapes.AcceptedOperands | Source/Core/CPU/OpcodeDispatch.cpp:101-883 | ADD, SHL, XOR, MOV, JMP and CMP are accepted with a ModRM byte that names registers and no SIB byte only, ADD also with a register-indirect operand |
| HandlerShapes.RejectedHarmlessExactlyWhen | Source/Core/CPU/OpcodeDispatch.cpp:101-193 | a rejected fragment leaves the CPU state alone, except exactly that an operand-size prefixed ADD of memory with SIB aborts the backend on its two-byte load |
| Builder.OpDispatchBuilder.Append | Source/Core/CPU/IntrusiveIRList.h:31-40 | appends an operation at its final place in the handler's fragment |
| Builder.OpDispatchBuilder.LoadContext | Source/Core/CPU/OpcodeDispatch.cpp:1204-1209 | appends a context load and returns its offset |
| Builder.OpDispatchBuilder.StoreContext | Source/Core/CPU/OpcodeDispatch.cpp:1211-1216 | appends a context store of a value |
| Builder.OpDispatchBuilder.Truncate | Source/Core/CPU/OpcodeDispatch.cpp:1218-1239 | appends the truncation of the operand size, none for 8 bytes |
| Builder.OpDispatchBuilder.SetCF | Source/Core/CPU/OpcodeDispatch.cpp:1003-1030 | appends exactly the six operations of the carry update |
| Builder.OpDispatchBuilder.SetFlag | Source/Core/CPU/OpcodeDispatch.cpp:1032-1165 | appends exactly the nine operations of the ZF, SF or OF update |
| Builder.OpDispatchBuilder.GetFlagBit | Source/Core/CPU/OpcodeDispatch.cpp:1167-1202 | appends the flag test, whose negating XOR takes its own offset as operand |
| Builder.OpDispatchBuilder.AddOp | Source/Core/CPU/OpcodeDispatch.cpp:101-261 | the bytes appended and the failure flag are those of the ADD fragment |
| Builder.OpDispatchBuilder.AddImmOp | Source/Core/CPU/OpcodeDispatch.cpp:468-496 | the bytes appended are those of the ADD rAX, immediate fragment |
| Builder.OpDispatchBuilder.AddImmModRMOp | Source/Core/CPU/OpcodeDispatch.cpp:498-576 | the bytes appended and the failure flag are those of the ADD r/m, imm8 fragment with its SF and ZF updates |
| Builder.OpDispatchBuilder.ShlImmOp | Source/Core/CPU/OpcodeDispatch.cpp:578-685 | the bytes appended and the failure flag are those of the SHL fragment |
| Builder.OpDispatchBuilder.XorOp | Source/Core/CPU/OpcodeDispatch.cpp:687-739 | the bytes appended and the failure flag are those of the XOR fragment |
| Builder.OpDispatchBuilder.MovOp | Source/Core/CPU/OpcodeDispatch.cpp:741-788 | the bytes appended and the failure flag are those of the MOV fragment |
| Builder.OpDispatchBuilder.BTOp | Source/Core/CPU/OpcodeDispatch.cpp:790-841 | the bytes appended and the failure flag are those of the BT fragment |
| Builder.OpDispatchBuilder.JMPOp | Source/Core/CPU/OpcodeDispatch.cpp:843-883 | the bytes appended and the failure flag are those of the JMP fragment |
| Builder.OpDispatchBuilder.LEAOp | Source/Core/CPU/OpcodeDispatch.cpp:885-960 | the bytes appended and the failure flag are those of the LEA fragment, also when it fails after appending |
| Builder.OpDispatchBuilder.CMPOp | Source/Core/CPU/OpcodeDispatch.cpp:263-339 | the bytes appended and the failure flag are those of the CMP fragment |
| Builder.OpDispatchBuilder.JccOp | Source/Core/CPU/OpcodeDispatch.cpp:341-429 | the bytes appended, the back-patched target included, are those of the guarded exit |
| Builder.OpDispatchBuilder.PatchTarget | Source/Core/CPU/OpcodeDispatch.cpp:425-426 | the late assignment completes the conditional jump, unless the vector was replaced since |
| Builder.Patched | Source/Core/CPU/OpcodeDispatch.cpp:395-427 | test, jump with a still unwritten target, exit and patch together are the branch fragment at its place |
| Builder.OpDispatchBuilder.RETOp | Source/Core/CPU/OpcodeDispatch.cpp:431-466 | the bytes appended are those of the RET fragment |
| Builder.OpDispatchBuilder.SyscallOp | Source/Core/CPU/OpcodeDispatch.cpp:962-989 | seven register loads, the call with their offsets in order, and the store of its result |
| Builder.OpDispatchBuilder.BeginBlock | Source/Core/CPU/OpcodeDispatch.cpp:92-94 | appends the start of a block |
| Builder.OpDispatchBuilder.EndBlock | Source/Core/CPU/OpcodeDispatch.cpp:96-99 | appends the end of a block with its increment |
| Builder.OpDispatchBuilder.AddRIPMarker | Source/Core/CPU/OpcodeDispatch.h:60-64 | appends the marker and records its offset under its address |
| Builder.OpDispatchBuilder.ResetWorkingList | Source/Core/CPU/OpcodeDispatch.h:58 | list and locations are empty and no failure is pending |
| Builder.OpDispatchBuilder.Dispatch | Source/Core/CPU/CPUCore.cpp:473-476 | invoking the entry's handler appends that handler's fragment and reports its failure |
| Builder.OpDispatchBuilder.TranslateInstruction | Source/Core/CPU/CPUCore.cpp:472-480 | marker and fragment are appended, every offset in the fragment moved to where it stands |
| Flags.FlagSetBits | Source/Core/CPU/OpcodeDispatch.cpp:1003-1165 | a flag update sets exactly its bit, to bit 0 of the value, and keeps the other 63 |
| Flags.FlagSetsCommute | Source/Core/CPU/OpcodeDispatch.cpp:1003-1165 | updates of different flags commute |
| Flags.FlagSetOverwrites | Source/Core/CPU/OpcodeDispatch.cpp:1003-1165 | of two updates of one flag the later counts |
| Flags.FlagGetIsBit | Source/Core/CPU/OpcodeDispatch.cpp:1167-1202 | the flag test computes the flag's bit |
| Flags.GetAfterSet | Source/Core/CPU/OpcodeDispatch.cpp:1003-1202 | reading after an update yields bit 0 of the value; other flags read as before |
| Flags.SetFlagEffect | Source/Core/CPU/OpcodeDispatch.cpp:1032-1165 | running the nine emitted operations, anywhere, stores the updated flags |
| Flags.SetCFEffect | Source/Core/CPU/OpcodeDispatch.cpp:1003-1030 | running the six emitted operations, anywhere, stores the updated flags |
| Flags.GetFlagBitEffect | Source/Core/CPU/OpcodeDispatch.cpp:1167-1202 | running the emitted test yields the flag; the negating form yields the constant 1 |
| Words.XorDigits | Source/Core/CPU/LLVMBackend/LLVM.cpp:190-426 | every digit of the exclusive or is the sum of the two digits modulo 2; a word with itself gives 0 |
| Operators.ComputeMeans | Source/Core/CPU/InterpreterBackend/Interpreter.cpp:83-127 | each binary operation in integers and digits: sum, difference, product and quotient with a power of two, and digit by digit |
| Operators.LoadedByte | Source/Core/CPU/InterpreterBackend/Interpreter.cpp:154-177 | byte k of a load is the byte of memory k behind the address |
| Operators.LoadedWord | Source/Core/CPU/InterpreterBackend/Interpreter.cpp:154-177 | a word is the result of an 8-byte load if and only if its bytes lie there, the lowest first |
| Operators.LoadIsPrefix | Source/Core/CPU/InterpreterBackend/Interpreter.cpp:154-177 | a 4-byte load is the low half of an 8-byte load |
| Flags.JccTargetModulo | Source/Core/CPU/OpcodeDispatch.cpp:407-410 | a taken jump goes to JITRIP plus signed displacement plus instruction size modulo 2^64 |
| Flags.JccEffect | Source/Core/CPU/OpcodeDispatch.cpp:341-429 | walked over, a conditional jump on a clear flag exits on that flag in the polarity of the walk; one on a set flag tests the constant 1 instead, and the LLVM backend does not compile it (`BlockCompilesExactlyWhen`) |
| Flags.CMPEffect | Source/Core/CPU/OpcodeDispatch.cpp:263-339 | CMP writes the zero flag complemented: 0 when the operands are equal |
| Flags.CompareAndBranch | Source/Core/CPU/LLVMBackend/LLVM.cpp:234-261 | CMP followed by JNE leaves for the jump's target if and only if the operands differ, in the lowering's polarity; the interpreter's polarity gives the opposite |
| Translate.InstructionInStream | Source/Core/CPU/CPUCore.cpp:472-476 | in a block's stream each instruction is its marker followed by its fragment, moved to its offset |
| Machine.PlacementDoesNotMatter | Source/Core/CPU/InterpreterBackend/Interpreter.cpp:21-182 | closed straight-line code has the same effect at every offset and whatever was computed before |
| Machine.RunOverStraight | Source/Core/CPU/InterpreterBackend/Interpreter.cpp:21-182 | walking over a straight stretch of a stream is running that stretch |
| BlockMeaning.RunOverFragment | Source/Core/CPU/InterpreterBackend/Interpreter.cpp:21-182 | walking over a placed fragment is running it, with the conditional jump's two ways and its backward link |
| BlockMeaning.StreamMeansBlock | Source/Core/CPU/InterpreterBackend/Interpreter.cpp:21-182 | the walk over a block's stream means executing its instructions one after the other, for every dialect that accepts markers |
| SuffixClosure.AcceptedInstruction | Source/Core/CPU/CPUCore.cpp:457-514 | instruction i of a block lies at the start plus the bytes before it, and was accepted there; only the last one may end the block |
| SuffixClosure.LoopEndsBecause | Source/Core/CPU/CPUCore.cpp:457-514 | the loop ends behind an instruction that ends blocks, or at one that is unknown, or locked or without a handler, or rejected, and says which |
| SuffixClosure.TranslationOfSuffix | Source/Core/CPU/CPUCore.cpp:457-514 | translating at the address of instruction i yields the remaining instructions and the remaining increment |
| SuffixExactness.SuffixIsTranslationExactlyWhen | Source/Core/CPU/CPUCore.cpp:457-514 | the block at the address of instruction i is `BeginBlock`, the original stream's tail with every offset moved by one constant, and the reduced increment, if and only if the address test of `JccOp` answers alike at both addresses or is not asked from i on |
| SuffixExactness.SameAddressOtherAnswer | Source/Core/CPU/CPUCore.cpp:457-514 | two blocks whose test answers differently go on alike from a common address as long as the test is not asked, and the enabled one goes on where the other one's jump was rejected |
| SuffixClosure.GuardsBreakSuffix | Source/Core/CPU/OpcodeDispatch.cpp:390-391 | with the program's own address test nothing is translated at the address of a jump inside a block |
| LinkedLoops.HandlersAndRip | Source/Core/CPU/OpcodeDispatch.cpp:101-989 | handlers never read the instruction pointer; of those accepted only JMP and RET write it, as their last operation |
| LinkedLoops.LinkedRestExactlyWhen | Source/Core/CPU/OpcodeDispatch.cpp:390-391 | at an instruction a jump of the block goes back to, the rest of the block is its own translation if and only if the address test answers alike at both addresses |
| LinkedLoops.LinkedRunIsEntries | Source/Core/CPU/LLVMBackend/LLVM.cpp:196-262 | from any instruction where the address test answers as at the block's start, a linked run is some number of separate entries |
| LinkedLoops.LinkedLoopsRefineReentry | Source/Core/CPU/LLVMBackend/LLVM.cpp:196-262 | for any number of iterations, branching to the recorded block ends as storing the target, leaving and translating there again, provided the address test answers alike at each address the block jumps back to |
| JumpingBlock.LoopLinks | Source/Core/CPU/LLVMBackend/LLVM.cpp:245-256 | NOP; JNE back to it; RET is such a block wherever its start is enabled: it links to its own start and compiles |
| JumpingBlock.ProgramLoopLinks | Source/Core/CPU/OpcodeDispatch.cpp:390-394 | in particular at the one address the program enables |
| JumpingBlock.InnerLoopIsNotReentry | Source/Core/CPU/OpcodeDispatch.cpp:390-394 | NOP; NOP; JNE back to the second one, where only the start is enabled: the linked loop runs for ever, and the third separate entry finds nothing to translate |
| LoweringProofs.Monotone | Source/Core/CPU/LLVMBackend/LLVM.cpp:190-262 | lowering only appends: earlier basic blocks are prefixes of later ones, and an abort stays |
| LoweringProofs.LinksAreMarkers | Source/Core/CPU/LLVMBackend/LLVM.cpp:196-211 | an address has a recorded block if and only if its marker was lowered, and the block then starts there |
| LoweringProofs.GraphRefinesStream | Source/Core/CPU/LLVMBackend/LLVM.cpp:190-262 | a run of the graph that ends is the run of the stream, links included |
| LoweringProofs.StreamRefinesGraph | Source/Core/CPU/LLVMBackend/LLVM.cpp:190-262 | a run of the stream is reached by the graph in some number of steps |
| StreamShape.GoodExactlyWhen | Source/Core/CPU/OpcodeDispatch.cpp:1193-1197 | a translated block has a meaning in both backends if and only if it has no self-referential flag test |
| StreamShape.StreamIsLocalSSA | Source/Core/CPU/OpcodeDispatch.cpp:101-989 | every argument in a built stream names an earlier value of the same instruction, if and only if no self-referential test was emitted |
| StreamShape.StreamIsShaped | Source/Core/CPU/OpcodeDispatch.cpp:395-427 | every conditional jump in a built stream guards its exit and skips to its target; the one other end is the last operation |
| StreamShape.TranslationsAreFromHandlers | Source/Core/CPU/CPUCore.cpp:472-500 | a translated block has at least one instruction, all of them accepted, and a rejected one was rejected by its handler |
| GraphShape.CompilesExactlyWhen | Source/Core/CPU/LLVMBackend/LLVM.cpp:190-426 | a stream with local values lowers without abort if and only if every straight operation has a case |
| GraphShape.GraphIsWellFormed | Source/Core/CPU/LLVMBackend/LLVM.cpp:190-262 | every basic block ends in its only terminator, branches stay inside, nothing is appended to a terminated block, and no false path is left pending |
| Compilable.FragmentSupportedExactlyWhen | Source/Core/CPU/LLVMBackend/LLVM.cpp:263-426 | every operation of an accepted instruction has a case in the lowering if and only if it is not an ADD, SHL or XOR of 16 bits; of a rejected one, unless it loads two bytes |
| Compilable.SelfReferenceInStream | Source/Core/CPU/OpcodeDispatch.cpp:1193-1197 | an accepted JO, JB, JZ, JS or JP puts an operation into the stream that reads its own value |
| Compilable.SelfReadAborts | Source/Core/CPU/LLVMBackend/LLVM.cpp:263-426 | such an operation aborts the compilation |
| Backends.BlockCompilesExactlyWhen | Source/Core/CPU/LLVMBackend/LLVM.cpp:471-533 | a translated block compiles in a new backend if and only if no accepted instruction is an ADD, SHL or XOR of 16 bits or a JO, JB, JZ, JS or JP, and the rejected one does not load two bytes |
| Backends.BackendsAgree | Source/Core/CPU/InterpreterBackend/Interpreter.cpp:21-182 | without backward links the graph reaches the state of the walk with complemented conditional jumps, and every run of it that ends is that walk |
| Backends.LinkedGraphRefinesReentry | Source/Core/CPU/LLVMBackend/LLVM.cpp:196-262 | every run of the linked graph that ends is some number of entries |
| Backends.ReentryIsReachedByGraph | Source/Core/CPU/LLVMBackend/LLVM.cpp:196-262 | conversely the graph reaches what those entries reach |
| Backends.InterpreterAbortsOnMarkers | Source/Core/CPU/InterpreterBackend/Interpreter.cpp:21-182 | as written the interpreter aborts on every translated block: its switch has no case for markers |
| Backends.WalkMakesProgress | Source/Core/CPU/InterpreterBackend/Interpreter.cpp:21-43 | the walk visits operations at strictly increasing offsets inside the stream and ends at exactly one `EndBlock`, or at an operation without meaning |
| Simulation.FormDecodes | Source/Core/CPU/X86Tables.cpp:330-569 | the decoder recognises each treated form with its handler, its length and no other flag |
| Simulation.FormEffect | Source/Core/CPU/OpcodeDispatch.cpp:101-960 | the operations of each treated form do to the CPU state what the instruction is specified to do |
| Simulation.FormAcceptedExactlyWhen | Source/Core/CPU/OpcodeDispatch.cpp:885-960 | every treated form is accepted, except exactly LEA to RSP or R12 |
| Simulation.FormIsTranslated | Source/Core/CPU/CPUCore.cpp:458-509 | wherever a treated form lies, the loop hands it to its handler and, if accepted, the operations do what it is specified to do |
| GuestBytes.AddBytes | Source/Core/CPU/OpcodeDispatch.cpp:101-261 | the specification byte by byte: ADD r/m, r with every pair of registers by number, with and without REX |
| GuestBytes.XorBytes | Source/Core/CPU/OpcodeDispatch.cpp:687-739 | XOR r/m, r: every digit is the sum of the operands' digits modulo 2, and a register with itself gives 0 |
| GuestBytes.MovBytes | Source/Core/CPU/OpcodeDispatch.cpp:741-788 | MOV r/m, r, clearing the upper half in 32 bits |
| GuestBytes.ShlBytes | Source/Core/CPU/OpcodeDispatch.cpp:578-685 | SHL r/m, imm8 multiplies by a power of two |
| GuestBytes.BitTestBytes | Source/Core/CPU/OpcodeDispatch.cpp:790-841 | BT r/m, r puts the digit that the other register names modulo 32 into bit 0 of the flags |
| GuestBytes.LeaStep | Source/Core/CPU/OpcodeDispatch.cpp:885-960 | LEA adds the displacement as a signed 32-bit integer |
| GuestBytes.JmpBytes | Source/Core/CPU/OpcodeDispatch.cpp:843-883 | JMP goes to the register's value |
| GuestBytes.OneByteSteps | Source/Core/CPU/OpcodeDispatch.cpp:431-466 | NOP does nothing; RET goes to the word whose eight bytes lie where register 7 points, the lowest first, and pops it |
| Simulation.BlockSimulatesGuest | Source/Core/CPU/CPUCore.cpp:441-517 | from any instruction of the block on, the block does what the guest does from there |
| Simulation.TranslationSimulatesGuest | Source/Core/CPU/CPUCore.cpp:441-517 | the stream built from guest bytes, run once, ends in the state of executing the accepted instructions one at a time |
| Simulation.RejectedEnd | Source/Core/CPU/CPUCore.cpp:488-509 | the end of every block that a rejected instruction ended: it stops the backend if that instruction loads two bytes, and otherwise advances the instruction pointer by exactly the accepted bytes |
| Simulation.EarlyEndIsPrefix | Source/Core/CPU/CPUCore.cpp:488-509 | from every instruction on, and in every dialect, such a block runs as the block of its accepted instructions alone |
| Simulation.NopThenRet | Source/Core/CPU/CPUCore.cpp:457-514 | NOP followed by RET, wherever it lies, is a translated block of treated forms: the results about such blocks are not empty |
| OtherEffects.AddImmEffect | Source/Core/CPU/OpcodeDispatch.cpp:468-496 | ADD rAX, immediate adds to the whole register whatever the operand size, and touches no flag |
| OtherEffects.AddImmModRMEffect | Source/Core/CPU/OpcodeDispatch.cpp:498-576 | ADD r/m, imm8 writes the whole sum; SF is bit 4*size-1 of the old value, ZF the complement of a comparison of the sum with 1 |
| OtherEffects.SyscallEffect | Source/Core/CPU/OpcodeDispatch.cpp:962-989 | the handler is called once with rax, rdi, rsi, rdx, r10, r8, r9 in this order, and its result goes to rax |
| OtherEffects.AddMemoryEffect | Source/Core/CPU/OpcodeDispatch.cpp:160-257 | ADD with a register-indirect operand adds the loaded word to the register named by `reg`, for either direction of the opcode, in 64 or 32 bits |
| OtherEffects.AddRegistersEffect | Source/Core/CPU/OpcodeDispatch.cpp:160-257 | ADD of two registers adds to the one named by `rm`, for either direction of the opcode |
| DispatchedBytes.AddMemoryBytes | Source/Core/CPU/OpcodeDispatch.cpp:101-261 | the bytes of ADD 01 and 03 with a register-indirect operand: accepted, and the register that `reg` numbers takes the sum with the bytes at the address the other one holds |
| DispatchedBytes.AddRegistersBytes | Source/Core/CPU/OpcodeDispatch.cpp:101-261 | the bytes of ADD 01 and 03 with two registers: the sum goes to the one that `rm` numbers, also for 03 |
| DispatchedBytes.MovRexBytes | Source/Core/CPU/OpcodeDispatch.cpp:741-788 | the bytes of MOV with any REX prefix: the whole register is copied, also without REX.W |
| DispatchedBytes.CompareBytes | Source/Core/CPU/OpcodeDispatch.cpp:263-339 | the bytes of CMP: accepted exactly at an enabled address, ZF becomes 0 for equal registers |
| DispatchedBytes.AddByteBytes | Source/Core/CPU/OpcodeDispatch.cpp:498-576 | the bytes of ADD 83 /0: the signed byte is added to the whole register, with the handler's SF and ZF |
| DispatchedBytes.AddImmediateStep | Source/Core/CPU/OpcodeDispatch.cpp:468-496 | the bytes of ADD rAX, immediate in its three lengths: register 0 takes the signed sum |
| DispatchedBytes.SyscallBytes | Source/Core/CPU/OpcodeDispatch.cpp:962-989 | the bytes 0F 05, undiverted: the block ends, and the handler is called once with registers 0, 5, 4, 3, 10, 8, 9 and answers in register 0 |
| DispatchedBytes.NopBytes | Source/Core/CPU/OpcodeDispatch.cpp:1281 | every encoding of 0F 1F does nothing and goes on behind its last byte |
| DispatchedBytes.ShortJumpBytes | Source/Core/CPU/OpcodeDispatch.cpp:341-429 | the bytes 70 to 7F: accepted exactly at an enabled address and for the flags 11, 0, 6, 7 and 2; where they leave for, and when, in either polarity |
| Interpreter.Thread.Execute | Source/Core/CPU/InterpreterBackend/Interpreter.cpp:45-177 | each case of the switch updates values and CPU state as the operation's meaning says, and aborts otherwise |
| Interpreter.Thread.Visit | Source/Core/CPU/InterpreterBackend/Interpreter.cpp:22-182 | one pass of the loop is one step of the walk, and the next offset is an operation boundary |
| Interpreter.Thread.TestCompilation | Source/Core/CPU/InterpreterBackend/Interpreter.cpp:9-184 | the loop over byte offsets ends in the state of the walk over the operations, or aborts where it is stuck |
| LLVMBackend.LLVM.StartBlock | Source/Core/CPU/LLVMBackend/LLVM.cpp:196-210 | a target's marker ends the current block in a branch to a new one and records it |
| LLVMBackend.LLVM.Return | Source/Core/CPU/LLVMBackend/LLVM.cpp:212-230 | the end of a block returns and continues with the false path pending last |
| LLVMBackend.LLVM.Jump | Source/Core/CPU/LLVMBackend/LLVM.cpp:234-261 | a conditional jump branches to a recorded block or a new true path, and leaves the false path pending |
| LLVMBackend.LLVM.HandleIR | Source/Core/CPU/LLVMBackend/LLVM.cpp:190-426 | one operation changes the compiler's fields as the lowering function says, given the blocks earlier compilations recorded |
| LLVMBackend.LLVM.CollectJumps | Source/Core/CPU/LLVMBackend/LLVM.cpp:435-449 | the first pass collects the skip offsets and the guest targets of all conditional jumps |
| LLVMBackend.LLVM.FindJumpTargets | Source/Core/CPU/LLVMBackend/LLVM.cpp:428-469 | both passes together add exactly the jump targets |
| Lowering.TargetsExactly | Source/Core/CPU/LLVMBackend/LLVM.cpp:428-469 | an address is a target if and only if a conditional jump goes to it or its instruction contains a landing |
| LLVMBackend.LLVM.LowerAll | Source/Core/CPU/LLVMBackend/LLVM.cpp:512-524 | the loop lowers every operation of the list, and an abort ends it |
| LLVMBackend.LLVM.CompileCode | Source/Core/CPU/LLVMBackend/LLVM.cpp:471-533 | the code is that of lowering the list's operations, amid the values and recorded blocks that earlier calls left |
| StaleLinks.StaleLinksMatterExactlyWhen | Source/Core/CPU/LLVMBackend/LLVM.cpp:245-256 | left-over values never matter; left-over blocks break a function if and only if a conditional jump goes to one of their addresses not yet marked in this stream |
| StaleLinks.SecondFunctionFails | Source/Core/CPU/LLVMBackend/LLVM.cpp:509-512 | a stream that compiles by itself does not compile after a function that recorded its target |
| Core.InspectIs | Source/Core/CPU/CPUCore.cpp:458-509 | one pass of the translation loop distinguishes undecoded, locked or unhandled, rejected and accepted instructions |
| Core.Translator.TryInstruction | Source/Core/CPU/CPUCore.cpp:465-489 | marker and handler are appended unless the instruction is locked or has no handler, and a rejected one is told apart |
| Core.Translator.TranslateBlock | Source/Core/CPU/CPUCore.cpp:456-514 | the loop accepts exactly the instructions of the translation function, and the builder holds exactly their stream |
| Core.Translator.TranslateAndReset | Source/Core/CPU/CPUCore.cpp:455-520 | a finished list holds the fresh stream; afterwards the builder is empty and has not failed |
| Core.BlockCache.AddBlockMapping | Source/Core/CPU/BlockCache.h:16-20 | inserts, or changes nothing when the key is taken |
| Core.ThreadState.StoreTranslation | Source/Core/CPU/CPUCore.cpp:453-532 | caches gain exactly the fresh translation, or nothing and the run stops on an unknown encoding |
| Core.ThreadState.CompileStored | Source/Core/CPU/CPUCore.cpp:534-546 | the stored list is compiled and inserted under a free key |
| Core.ThreadState.CompileBlock | Source/Core/CPU/CPUCore.cpp:441-547 | both caches stay coherent, the insertion never finds its key taken, and the result is the code of the fresh translation amid what the backend kept |
| RunLoop.TargetsNeedGuard | Source/Core/CPU/OpcodeDispatch.cpp:390-394 | only the block at an enabled address records jump targets or looks for them |
| RunLoop.CompilesAsFresh | Source/Core/CPU/LLVMBackend/LLVM.cpp:471-533 | amid left-over state a fresh stream compiles if and only if it compiles by itself, unless a jump goes to a stale address |
| RunLoop.CompileMissing | Source/Core/CPU/CPUCore.cpp:404-408 | for an address without code, compilation yields the fresh code, nothing, or the end of the program, as without caches |
| RunLoop.ExecuteOnce | Source/Core/CPU/CPUCore.cpp:391-428 | one pass with caches is one pass without them, up to the pause at its end |
| RunLoop.ExecutionThread | Source/Core/CPU/CPUCore.cpp:383-428 | over any number of passes the cached loop goes through the states of the loop that translates and compiles afresh every time, and leaves the caches coherent |
| RunLoop.FormsCompile | Source/Core/CPU/LLVMBackend/LLVM.cpp:471-533 | a translated block of the treated forms always compiles |
| RunLoop.CompiledBlockSimulatesGuest | Source/Core/CPU/CPUCore.cpp:404-413 | from guest bytes to compiled code: one pass over a block of treated forms ends where executing its instructions one at a time ends, and nowhere else |
| WholeRuns.RunSimulatesGuest | Source/Core/CPU/CPUCore.cpp:391-428 | whole runs: as long as the blocks reached are of treated forms, n passes end after some number of guest instructions, at least n unless the guest reaches address 0, in the guest's own state |
| WholeRuns.RunExecutesGuest | Source/Core/CPU/CPUCore.cpp:391-428 | whole runs through the foreign emulator: if it executes one guest instruction at a time and every translated block is of treated forms, n passes execute k instructions one after the other, k at least n while running; the loop stops only at address 0 or at an unknown encoding |
| WholeRuns.PushIsEmulated | Source/Core/CPU/CPUCore.cpp:404-419 | a PUSH, which has no handler, is one pass of the emulator, after which the loop goes on |
| WholeRuns.UnknownStops | Source/Core/CPU/CPUCore.cpp:404-419 | an unknown opcode is one pass of the emulator, after which the loop stops |
| WholeRuns.Start | Source/Core/CPU/CPUCore.cpp:383-428 | from empty caches and with the program's own address tests, without further assumption on the caches: the cached loop ends as the loop without caches, and so in the guest's own execution in both senses above |
| Pause.CountIsExact | Source/Core/CPU/CPUCore.cpp:433-437 | in every run of any number of threads the counter equals the number of threads between increment and decrement |
| Pause.DecrementIsPossible | Source/Core/CPU/CPUCore.cpp:436 | a leaving thread always finds the counter positive |
| Pause.RoundIsSafeExactlyWhen | Source/Core/CPU/CPUCore.cpp:107-115 | when a thread sets the flag, whatever follows in that round maps only while all others spin, if and only if at that moment no thread is between leaving its spin loop and its decrement, or another thread has exited or maps itself, so that the wait never ends |
| Pause.WaitCanEnd | Source/Core/CPU/CPUCore.cpp:433-437 | otherwise a schedule leads to the mapping with that thread still on its way out |
| Pause.WaitEndsSafelyExactlyWhen | Source/Core/CPU/CPUCore.cpp:107-115 | when the wait ends, all others spin if and only if none of them is between leaving its loop and its decrement |
| Pause.RoundBegins | Source/Core/CPU/CPUCore.cpp:108 | setting the flag with nobody on the way out and nobody else mapping begins a safe round, also while others still spin |
| Pause.QuietWhileMapping | Source/Core/CPU/CPUCore.cpp:107-115 | in such a round every other thread is in its spin loop from the end of the wait until the flag is cleared |
| Pause.OthersCannotMove | Source/Core/CPU/CPUCore.cpp:433-437 | while the mapper maps, no other thread can take any step |
| Pause.NobodyJoins | Source/Core/CPU/CPUCore.cpp:433-437 | once the flag is clear and nobody is announcing itself, in every run no thread joins the spinning ones until the flag is set again |
| Pause.SpinnerGoesOn | Source/Core/CPU/CPUCore.cpp:433-437 | and a spinning thread can leave, count itself off and go on |
| Pause.LateIsReachable | Source/Core/CPU/CPUCore.cpp:433-437 | one ordinary round of two executing threads leads to a state in which the flag is clear and a thread is still leaving |
| Pause.LateLeaverRunsDuringMapping | Source/Core/CPU/CPUCore.cpp:433-437 | a round begun there lets that thread run a block during the mapping |
| Pause.WaitsForever | Source/Core/CPU/CPUCore.cpp:107-109 | a mapper waits forever once another thread maps too or has exited |
| Memmap.OffsetFromBase | Source/Core/Memmap.cpp:56-63 | region pointer plus distance is base plus address, in 64-bit arithmetic |
| Memmap.Memmap.MapRegion | Source/Core/Memmap.cpp:33-45 | a mapped region is recorded, and a fixed one keeps every region at base plus offset |
| Memmap.Memmap.AllocateSHMRegion | Source/Core/Memmap.cpp:10-31 | the first mapping sets the base, wherever it lands |
| Memmap.Memmap.UnmapRegion | Source/Core/Memmap.cpp:47-53 | the first region at that pointer disappears, and only that one |
| Memmap.Memmap.GetPointer | Source/Core/Memmap.cpp:56-64 | an address has a pointer if and only if it lies, as an integer, between the ends of some region that ends below 2^64, and it is base plus address whichever overlapping region is found |
| Memmap.MappedIsContained | Source/Core/Memmap.cpp:56-64 | every address inside a region that does not wrap is found |
| Memmap.ContainsExactly | Source/Core/Memmap.cpp:56-64 | in integers: a region that ends below 2^64 contains exactly its own addresses, one that reaches it contains none |
| Memmap.AlignUpExactlyWhen | Source/Core/HLE/Syscalls/Syscalls.cpp:8-10 | the least page boundary at or above the value, if and only if that is below 2^64; otherwise 0 |
| Memmap.HandedAt | Source/Core/HLE/Syscalls/Syscalls.cpp:157-174 | over any sequence of requests, range k is page-aligned and starts where the earlier sizes add up to, modulo 2^64 |
| Memmap.HandedDisjointExactlyWhen | Source/Core/HLE/Syscalls/Syscalls.cpp:157-174 | no address is handed out twice if and only if the sizes add up to at most 2^64 |
| Memmap.SyscallHandler.Mmap | Source/Core/HLE/Syscalls/Syscalls.cpp:157-174 | the range handed out is the next one, the region is mapped there for every thread, and all regions stay at base plus offset |
| HarnessLoop.ElementAddress | Source/UI/TestHarness.cpp:370-395 | shift and sum give the address of word i |
| HarnessLoop.ElementByte | Source/UI/TestHarness.cpp:370-395 | byte k of word i is the byte of memory 8i + k behind the array's start |
| HarnessLoop.BodyAdds | Source/UI/TestHarness.cpp:361-400 | the first half of the loop body adds word i to the result |
| HarnessLoop.BodyEnds | Source/UI/TestHarness.cpp:402-424 | the second half advances the index and leaves exactly at the count |
| HarnessLoop.LoopFrom | Source/UI/TestHarness.cpp:361-424 | the invariant: at pass i the result is the sum of the first i words |
| HarnessLoop.LoopSums | Source/UI/TestHarness.cpp:320-434 | for every array and every positive count the function returns the sum modulo 2^64, whatever the context held |
| HarnessLoop.BuildLoop | Source/UI/TestHarness.cpp:320-434 | the list that `main` assembles and patches, walked by `GetSize`, is that program |

## Left out

- CompileBlock: agreement with a fresh translation is stated while nothing was lost in the byte vector; if a block's stream outgrows the vector between a conditional jump and its patch, the program writes to freed memory and nothing is stated.
- ExecuteOnce: the pause at the end of a pass is a step of the protocol in `Pause` and not part of the method, nor of `ExecutionThread`.
- ExecutionThread: compared with the cacheless loop for guards that enable jumps in at most one block and for code without self-referential tests; outside these `StaleLinksMatterExactlyWhen` and `GoodExactlyWhen` say what happens to one compilation.
- SuffixIsTranslationExactlyWhen: for blocks shorter than the program's limit of 0xFFFFFFFF instructions, at which a block ends wherever it is.
- JccEffect: a jump on a set flag is described for the walk only, since the LLVM backend aborts when it compiles one.
- TranslationSimulatesGuest: covers ADD, XOR, MOV and SHL on registers, BT, LEA with a 32-bit displacement, NOP, JMP and RET without legacy prefixes; flags of ADD, XOR and SHL are left untouched as the handlers leave them. Other handlers are covered by the structural results only, since they do not decide the instruction's architectural meaning.
- LinkedLoopsRefineReentry: for blocks whose jumps go back only to addresses where the test of `JccOp` answers as at the block's start, with the program's constant the start itself; `LinkedRestExactlyWhen` and `InnerLoopIsNotReentry` show that it fails otherwise.
- RunExecutesGuest: the emulator is a parameter that executes one instruction; what it does to instructions outside the treated forms is not specified.
- BackendsAgree: shifts by 64 or more are undefined in C++ and in LLVM and count as abort in both.
- TestCompilation: stated for lists a builder produced, whose jumps go forward to operations; on others the loop need not end.
- BuildLoop: fields that `main` leaves unassigned are written as 0, their value in a new vector.
- LoopSums: `RequiredFixups` is read after its entry was erased in the harness; the model takes the value it had.
- Writes past the decoder's 15-byte copy of the instruction: the model calls this `Overrun` and treats it as an unknown encoding. `PrefixBytes` is not modelled.
- The loops that fill the instruction tables; the tables are functions. The arrays of 255 entries are modelled with 256.
- `SyscallOp` writes seven offsets into an array of six; the model has seven.
- System calls: a call is its arguments, appended to a history on which its result may depend. Guest memory does not change during a block, and every guest address can be read.
- `AddImmOp`, `AddImmModRMOp` and ADD with a memory operand as x86 instructions: `OtherEffects` states what their handlers do instead. 16-bit operands have no meaning in the LLVM backend and are covered by structural results only.
- The handler `UnknownOp`, which asserts; it is never dispatched.
- Generated code refers to the parent thread's CPU state; caches and backend are modelled for one thread, which is the parent.
- LLVM itself, optimisation, code emission and the timing experiment at one address; the Unicorn fallback is a function on states.
- The result of `CompileCode` is never null in the model; an abort ends the run.
- `IntrusiveIRList::operator=`, `Dump` and other printing, XMM state, the AArch64 stub, ELF loading, the empty pass managers.
- Thread creation, condition variables and thread-local storage, except as steps of the pause protocol; exit of a thread is a step there.
- Files, clocks, futexes and BRK among the system calls.
- `mmap` of the host: a parameter says what it answers, with MAP_FIXED honoured.
