# Verified model of the ISA core and of two C# components

This project models, in Dafny, the parts of the emulator that other parts rely on to be exact, and proves what they
promise.

- **Instruction semantics.** The small language of macros and instructions, with locals, parameters, tuples, indexed
  register targets and calls that may be mutually recursive, runs over a mutable core behind a stack of 32 frames. The
  static analyzer checks every program when a machine is built. `Semantics`, `Registers` and `Interp` say what a run
  does; `Runtime` is the interpreter with its mutable state, proved to do it; `Analyzer` and `AnalyzerRun` are the
  analyzer; `Soundness`, `Frame`, `InterpLaws` and `Blocks` relate them. `Meaning`, `RegisterAccess` and
  `DecodedOperands` say what the specification means without naming it: the integer, flag and bits that every operator
  gives, the bits that an assignment leaves in a register, and the operands that a decoded line runs with.
- **Registers.** `CoreLayout` and `Schema` are the two passes over the register declarations; `ResolvedSlots`,
  `KnownReferences`, `Redirects` and `DeclaredRedirects` say what names, indexes, labels and redirects resolve to.
  `RegisterFile` is the core as bits of 64-bit words in either byte order; `CoreStore` and `CoreMemory` are the bytes
  and the chunked data handle below it.
- **Encoding and decoding.** `BitFields`, `BitFieldLaws`, `Machine`, `Encoding`, `Decoding` and `CodecRoundTrip` turn
  instructions into words and bytes and back; `BitSpecs` says which bits a bit spec, a mask and an enable expression
  mean; `Numerals`, `OperandText` and `AssemblyText` do the same for source text.
- **Validation.** `Validation` and `ValidationRun` relate the document validator to the construction of a machine.
- **Parsing.** `Parser`, `ProgramText` and `ParserRun` are the expression and statement parser over tokens;
  `Precedence` states how operators bind against the list of the source's rules.
- **Host arithmetic.** `HostArith` is the software host's arithmetic at every width.
- **The C# tree.** `IntelHex`, `HexImage`, `HexRoundTrip`, `HexMerge`, `HexKinds` and `HexStreams` are the Intel HEX writer and
  reader (Intel Hexadecimal Object File Format Specification, Revision A, sections 2, 3, 5 and 6); `DeviceBus`,
  `BusAccess` and `BusRun` the hashed device bus and its cursor; `BitSlices` the bit constructs.

Code that changes state in the original is modelled by classes and methods with loops. Each method is proved against a
specification function, and the lemmas are about those functions. `Words`, `Seqs` and `Results` hold what all share.
Machine integers are written out: a Rust `u64` is a natural number below 2^64, and wrapping and truncation are explicit.
`dafny verify dfyconfig.toml` checks everything.

The laws of bit fields (`PutGet`, `GetPut`, `PutPut`) carry the codec; the codec carries the text round trip; the
soundness and frame theorems are inductions over the same interpreter functions that the runtime methods implement.

## Model

| member | source | states |
|---|---|---|
| `Soundness.AcceptedInstructionSound` | src/soc/isa/machine/mod.rs:175-188 | If the analyzer accepts a machine and the indexes of register assignments are in scope, an instruction run from any bindings of its parameters, at any depth left and on any core, never fails with an unknown variable, parameter, macro, instruction or host helper, an ambiguous instruction call or a wrong arity |
| `Soundness.AcceptedMacroSound` | src/soc/isa/semantics/analyzer.rs:26-38 | The same for every macro of an accepted machine |
| `Soundness.EnterSound` | src/soc/isa/semantics/runtime.rs:85-103 | The induction behind both: any program proper in the scope of its bound parameters, with everything it calls, keeps free of those failures |
| `Soundness.DecodedInstructionSound` | src/soc/core/harness.rs:199-276 | A decoded instruction whose form exists and whose declared operands all get a value when it is decoded runs without those failures, from every word and every core |
| `Soundness.DecodingCoversIff` | src/soc/core/harness.rs:242-276 | Decoding binds the scope that the analyzer assumed exactly when every declared operand is a subfield of the form or a global parameter |
| `Soundness.UncheckedIndexFails` | src/soc/isa/semantics/analyzer.rs:92-109 | The failing family behind the index condition: for every register the analyzer knows, an assignment whose index is an undefined variable is accepted, and run it fails with the unknown variable, exactly when no parameter of that name is bound |
| `Soundness.UndeclaredOperandFails` | src/soc/isa/semantics/analyzer.rs:346-367 | The failing family behind the operand condition: an instruction that returns its one operand is accepted, and fails with an unknown parameter exactly when decoding gives that name no value |
| `Analyzer.CompileSemanticsIff` | src/soc/isa/machine/mod.rs:175-188 | The analyzer accepts a machine exactly when every program in it is well scoped and every call names one existing thing with the right number of arguments |
| `Analyzer.NoProgramDiagsIff` | src/soc/isa/semantics/analyzer.rs:55-159 | No diagnostic for a program exactly when each statement is proper in the scope of the parameters and the assignments before it |
| `AnalyzerRun.ValidateProgram` | src/soc/isa/semantics/analyzer.rs:55-72 | The loop that grows the scope and pushes diagnostics rejects and accepts what the specification says |
| `AnalyzerRun.ValidateStatement` | src/soc/isa/semantics/analyzer.rs:74-90 | One statement adds exactly its diagnostics, in order, and defines exactly its targets |
| `AnalyzerRun.BindTarget` | src/soc/isa/semantics/analyzer.rs:92-109 | Variables and tuple names enter the scope; a register target only adds its lookup diagnostics, and its index is not visited |
| `AnalyzerRun.ValidateContextCall` | src/soc/isa/semantics/analyzer.rs:161-261 | The diagnostics of macro, instruction, host and register calls, appended to those before |
| `AnalyzerRun.Compile` | src/soc/isa/machine/mod.rs:175-188 | Macros first, then instructions, stopping at the first rejection |
| `Runtime.ExecuteWithContext` | src/soc/isa/semantics/runtime.rs:85-103 | Running a program against the mutable state computes the specified outcome and core, and the call depth is restored on every way out; termination by frames left, then syntax left |
| `Runtime.CallStack.Enter` | src/soc/isa/semantics/runtime.rs:232-260 | A frame is entered exactly when the depth is below the limit, and then the depth grows by one |
| `Runtime.CallStack.Leave` | src/soc/isa/semantics/runtime.rs:262-267 | Dropping the guard takes the frame off again |
| `Runtime.ExecuteStatement` | src/soc/isa/semantics/runtime.rs:119-143 | Each statement changes locals and registers as specified, also when it fails half-way |
| `Runtime.AssignTarget` | src/soc/isa/semantics/runtime.rs:145-172 | Variables, tuples and indexed registers receive the value, or the state is what the failing step left |
| `Runtime.WriteRegisterTarget` | src/soc/isa/semantics/runtime.rs:174-197 | The register that reference and index resolve to is written, or nothing is |
| `Runtime.Evaluate` | src/soc/isa/semantics/expression.rs:66-209 | Evaluation computes the specified value and core and cannot touch the locals of the caller |
| `Runtime.EvaluateContextCall` | src/soc/isa/semantics/runtime.rs:609-621 | Register, macro, instruction and host calls run against the shared state and restore the depth |
| `Runtime.ExecuteProgram` | src/soc/isa/semantics/runtime.rs:72-83 | A run starts with 32 frames and an empty stack |
| `Runtime.ExecuteBlock` | src/soc/core/harness.rs:199-240 | The block loop runs each decoded instruction from the core the one before left and stops at the first failure |
| `Runtime.RegisterState.Write` | src/soc/isa/semantics/register.rs:300-318 | Writing a resolved register or one of its subfields changes that window of the core, or fails and changes nothing |
| `Meaning.SumMeans` | src/soc/isa/semantics/expression.rs:140-184 | `+` and `-` give the sum and the difference, left minus right, modulo 2^64 in the signed range, flags counting as 0 and 1 |
| `Meaning.OrderMeans` | src/soc/isa/semantics/expression.rs:140-184 | `<` and `>` are the order of the integers, left against right |
| `Meaning.EqualityMeans` | src/soc/isa/semantics/expression.rs:115-184 | `==` and `!=` compare numbers, flags among them |
| `Meaning.BitwiseMeans` | src/soc/isa/semantics/expression.rs:140-175 | Each bit of the bitwise or, exclusive or and and is that of the two operands, over all 64 bits of negative numbers too |
| `Meaning.DecidedMeans` | src/soc/isa/semantics/expression.rs:115-139 | A true left side of a logical or and a false one of a logical and decide, and the right side is not run: the core is what the left one left |
| `Meaning.UndecidedMeans` | src/soc/isa/semantics/expression.rs:115-139 | Otherwise both are the truth of the right side |
| `Meaning.LeftIsNoNumber` | src/soc/isa/semantics/expression.rs:115-184 | A left operand that is no number stops arithmetic and logic before the right one runs, and `==` and `!=` after it |
| `Meaning.RightIsNoNumber` | src/soc/isa/semantics/expression.rs:115-184 | A right operand that is no number is an error after both have run |
| `Meaning.OperandFails` | src/soc/isa/semantics/expression.rs:115-184 | A failing operand is the failure of the whole, with the core it left |
| `Meaning.SliceMeans` | src/soc/isa/semantics/expression.rs:186-215 | A slice shows bits start to end of the 64-bit pattern as the low bits of its value, and nothing above |
| `Meaning.BadSliceMeans` | src/soc/isa/semantics/expression.rs:186-209 | Reversed and too wide bounds are refused before anything runs |
| `Meaning.LeafMeans` | src/soc/isa/semantics/expression.rs:78-97 | A literal is its number below 2^63, a name the local of that name and else the parameter |
| `Meaning.TupleMeans` | src/soc/isa/semantics/expression.rs:107-113 | A tuple holds the values of its members, which run from left to right, each in the core that the one before left |
| `Meaning.CallMeans` | src/soc/isa/semantics/runtime.rs:329-381 | A macro or instruction call runs the program of that name with its k-th parameter bound to the k-th argument over the global parameters, in a frame of its own, and is what the program returns, or the empty tuple |
| `Meaning.PassedArgumentReturns` | src/soc/isa/semantics/runtime.rs:329-354 | A macro that returns its k-th parameter gives the k-th argument |
| `Meaning.BindMeans` | src/soc/isa/semantics/runtime.rs:508-523 | With distinct names the k-th name holds the k-th argument, and every other name its global value; another number of arguments is an error |
| `Meaning.GlobalsMean` | src/soc/isa/semantics/runtime.rs:591-601 | The global parameters are their numbers and words, and are refused exactly when a number is 2^63 or more |
| `Meaning.MacroFound` | src/soc/isa/semantics/runtime.rs:329-354 | The macro called is the first of its name, and none exactly when no macro has it |
| `Meaning.InstructionFound` | src/soc/isa/semantics/runtime.rs:541-560 | The instruction called is the only one of its name |
| `Meaning.SequenceMeans` | src/soc/isa/semantics/runtime.rs:85-103 | Statements after a part that falls through run from the locals and registers that it left |
| `Meaning.ReturnMeans` | src/soc/isa/semantics/runtime.rs:85-103 | A returning statement ends the program with its value, and nothing after it runs |
| `Meaning.AssignMeans` | src/soc/isa/semantics/runtime.rs:145-152 | An assignment gives its variable the value and changes no other local |
| `Meaning.TupleAssignMeans` | src/soc/isa/semantics/runtime.rs:153-167 | A tuple assignment gives the k-th of its distinct names the k-th member, and fails exactly on values that are no tuple of that length |
| `Meaning.HostAddMeans` | src/soc/isa/semantics/runtime.rs:405-429 | The call `add` returns a value below 2^w and a carry, which together are the low parts of the operands and the carry in |
| `Meaning.HostSubMeans` | src/soc/isa/semantics/runtime.rs:431-453 | The call `sub` returns the low part of the left operand minus that of the right one minus the borrow in, plus 2^w exactly when it returns a borrow |
| `Meaning.HostMulMeans` | src/soc/isa/semantics/runtime.rs:455-476 | The call `mul` returns the low half first and the high half second, together the product exactly when that is below 2^(64 + w) |
| `Meaning.HostRefuses` | src/soc/isa/semantics/runtime.rs:383-506 | There are no other helpers, they take four, four and three arguments, and widths outside 0 to 64 are refused |
| `RegisterAccess.WholeWriteMeans` | src/soc/isa/semantics/register.rs:300-318 | Of a register that reads back, a whole write is always accepted and leaves the value modulo 2^width |
| `RegisterAccess.WholeReadMeans` | src/soc/isa/semantics/register.rs:289-298 | A whole register reads as its number, negative only when it fills 64 bits and its top bit is set |
| `RegisterAccess.FieldWriteMeans` | src/soc/isa/semantics/register.rs:300-318 | A subfield takes exactly the values that fit it, and the register then has the written bits under its slices and every other bit as before |
| `RegisterAccess.OtherFieldKept` | src/soc/isa/semantics/register.rs:300-318 | Every field that shares no bit with the written one reads what it read before |
| `RegisterAccess.FieldReadsBack` | src/soc/isa/semantics/register.rs:289-318 | A written field whose slices are disjoint and inside the register holds the value |
| `RegisterAccess.FieldReadsBackIff` | src/soc/isa/semantics/register.rs:169-198 | Every value a subfield takes is read back exactly when its slices share no bit and lie inside the register |
| `RegisterAccess.FieldReadMeans` | src/soc/isa/semantics/register.rs:289-298 | A field reads as the number that its bits make, in two's complement when it is signed |
| `RegisterAccess.AssignedIsRead` | src/soc/isa/semantics/runtime.rs:174-197 | A program that assigns to a register or subfield and reads it through the same reference gets the value back, modulo 2^width for a register, from two's complement for a signed field |
| `RegisterAccess.IndexedAssignMeans` | src/soc/isa/semantics/runtime.rs:174-216 | An indexed assignment evaluates its value, then its index, then writes in the core that both have left |
| `RegisterAccess.IndexedReadMeans` | src/soc/isa/semantics/runtime.rs:290-327 | An indexed read reads the element its index selects, in the core that evaluating the index left |
| `RegisterAccess.ResolvedMeans` | src/soc/isa/semantics/register.rs:34-115 | A resolved reference denotes what its name denotes in the schema, and only when that is nothing what the redirect of the name leads to; its subfield is looked up with the fields lent by the name |
| `RegisterAccess.ElementMeans` | src/soc/isa/semantics/register.rs:116-167 | A single element takes no index but 0, an array exactly the numbers of its elements |
| `RegisterAccess.SubfieldMeans` | src/soc/isa/semantics/register.rs:169-198 | A subfield is the first of that name, in any case, among the register's own fields, and else among those lent by an alias |
| `RegisterAccess.RedirectMeans` | src/soc/isa/semantics/register.rs:234-259 | A redirect of one name stays in the space, a leading space segment chooses another, everything else is no register |
| `DecodedOperands.BindMeans` | src/soc/core/harness.rs:242-276 | Every subfield is bound to its bits of the word, extended by its sign if it is signed, also over a global parameter of its name; the other names hold the global parameters |
| `DecodedOperands.BindFailsIff` | src/soc/core/harness.rs:242-268 | Binding fails exactly on a global parameter of 2^63 or more and on a form the machine lacks |
| `DecodedOperands.AssembledLineRuns` | src/soc/core/harness.rs:199-276 | Each line of an assembled program, decoded from the bytes of the whole, runs its semantics with the operands it was assembled from: the number itself, or its two's complement reading in a signed field |
| `DecodedOperands.AssembledOperandReturns` | src/soc/core/harness.rs:199-276 | A block over such a line whose semantics return an operand returns the assembled value |
| `InterpLaws.EnterMonotone` | src/soc/isa/semantics/runtime.rs:237-260 | A larger depth limit changes no run that stays within a smaller one |
| `InterpLaws.RankedStaysWithin` | src/soc/isa/semantics/runtime.rs:105-117 | Programs whose call graph has no cycle, with chains shorter than the limit, never exceed it, whatever the input |
| `InterpLaws.SelfCallExceeds` | src/soc/isa/semantics/runtime.rs:232-260 | A macro that begins by calling itself exceeds every limit |
| `Frame.RunKeepsUnassigned` | src/soc/isa/semantics/runtime.rs:145-197 | A run, also a failing one, leaves every register reading as before that no assignment in it, or in what it transitively calls, can resolve to a disturber of, in the byte order of the core |
| `Frame.WriteResolvedKeeps` | src/soc/isa/semantics/register.rs:300-318 | Writing a resolved register or subfield keeps every register that it does not disturb |
| `Blocks.RunBlockSplit` | src/soc/core/harness.rs:199-240 | A block may be cut anywhere: the second part runs from the core the first one leaves |
| `Blocks.BlockSound` | src/soc/core/harness.rs:199-240 | No block of an accepted machine fails statically, from whatever core |
| `Blocks.BlockKeepsUnassigned` | src/soc/core/harness.rs:199-240 | A block keeps every register that none of its programs, and none they call, can disturb |
| `RegisterFile.WriteKeepsIff` | src/soc/core/state.rs:63-104 | Of two reachable registers, writing one never changes what the other reads exactly when the window written, counted from the low end of its chunk, and the window read, counted as the byte order says, share no bit: a condition on offsets, widths and byte order |
| `RegisterFile.DisturbsIff` | src/soc/system/bus/data.rs:83-163 | That condition on offsets and widths says exactly that some memory bit is changed by the one and shown by the other |
| `RegisterFile.LittleDisturbsIff` | src/soc/system/bus/data.rs:221-236 | In a little-endian core it is plain overlap of the two layouts |
| `RegisterFile.BigDisturbsIff` | src/soc/system/bus/data.rs:221-236 | In a big-endian core, within a word, the window that is read is mirrored in its word, so disjoint registers can disturb each other |
| `RegisterFile.WholeWordsDisturbIff` | src/soc/system/bus/data.rs:83-163 | Registers that fill aligned 64-bit words disturb each other only where they coincide, in both byte orders |
| `RegisterFile.BigHalvesDisturb` | src/soc/system/bus/data.rs:107-163 | The concrete input: writing 1 to the low 32 bits of a zeroed big-endian word makes the other 32 bits read 1 and itself read 0 |
| `RegisterFile.ReadsBackIff` | src/soc/core/state.rs:63-81 | Every value written to a register is read back exactly when the core is little-endian or the register lies in the middle of its chunk of one or two words |
| `CoreStore.RegisterFileRefined` | src/soc/system/bus/data.rs:83-163 | Reading and writing registers through the chunked data handle over bytes gives the values, the failures and the memory of the register file, in both byte orders |
| `CoreStore.SliceKeepsIff` | src/soc/system/bus/data.rs:83-163 | The frame condition for two bit slices of a byte memory |
| `CoreStore.MemoryReadsBackIff` | src/soc/system/bus/data.rs:221-236 | A bit slice of a byte memory reads back every value written to it exactly when the memory is little-endian or the slice is centred in its chunk |
| `CoreStore.WrittenChunk` | src/soc/system/bus/data.rs:107-163 | A write replaces the slice within its chunk and keeps every byte outside the chunk |
| `CoreMemory.CoreState.WriteRegister` | src/soc/core/state.rs:73-81 | The byte buffer becomes the specified memory, or the error is reported and no byte changes |
| `CoreMemory.CoreState.ReadRegister` | src/soc/core/state.rs:63-71 | Reading gives the addressed bits, or the unknown register, the width overflow or the bus error |
| `CoreMemory.CoreState.Zeroize` | src/soc/core/state.rs:106-113 | Every byte becomes zero |
| `CoreLayout.BuiltSpec` | src/soc/core/specification.rs:119-143 | After any sequence of builder calls that builds, the registers are sorted by offset, each name is indexed to its own register, every register has bits, and the total is the cursor and the largest extent |
| `CoreLayout.NextIsDisjoint` | src/soc/core/specification.rs:90-103 | In every sequence of builder calls without an error, a register that takes the next bits shares none with any register placed before it |
| `CoreLayout.CoreSpecBuilder.Finish` | src/soc/core/specification.rs:119-143 | The sorting, the index loop and the extent loop build that specification, or report all errors |
| `ResolvedSlots.ArrayElementsDisjoint` | src/soc/core/specification.rs:159-222 | In every layout that builds, any two elements of one declared array, at fixed offsets, at the cursor or both, share no bit and have the width of the declaration |
| `CoreLayout.RunPlaces` | src/soc/core/specification.rs:90-117 | Without an error the builder has every register exactly where the cursor or the call says |
| `ResolvedSlots.ResolvedHasSlot` | src/soc/isa/semantics/register.rs:34-114 | When schema and layout build, every register a reference resolves to, by name, index, label, alias or redirect, with or without a subfield, is in the core with the width of the schema and can be read and written |
| `ResolvedSlots.IndexAndLabelAgreeIff` | src/soc/isa/semantics/register.rs:73-167 | For arrays of at least two elements and any subfield, an index and the label of its element resolve to the same exactly when no register is declared under that label |
| `Schema.SchemaPlaced` | src/soc/isa/machine/register.rs:299-330 | The layout makes one call for every element of the schema, in the same order, with its name and width |
| `Schema.SchemaNamesSlots` | src/soc/core/specification.rs:159-198 | Every element of the schema names a core register of its width that can be reached, in either byte order |
| `Schema.SlotNamesDistinct` | src/soc/core/specification.rs:145-155 | Distinct elements of the schema never share a core name |
| `KnownReferences.BuiltTablesAgree` | src/soc/isa/machine/register.rs:299-368 | A schema built from the declarations of the machine has an entry for every register that is no redirect, with its fields, and no others; redirects keep their fields as alias fields |
| `KnownReferences.PlainReferenceResolves` | src/soc/isa/semantics/analyzer.rs:283-344 | A reference that the analyzer accepts to a register that is no redirect can fail at run time on its index only |
| `KnownReferences.RedirectedReferenceResolves` | src/soc/isa/semantics/register.rs:34-71 | An accepted reference to a redirect never misses its subfield; it fails on its index, or when its name is no label and its redirect chain is too deep, names a subfield or ends where the schema has nothing |
| `KnownReferences.DisplayedTargetIsNowhere` | src/soc/isa/semantics/register.rs:73-114 | The input: an accepted document with a redirect to an array element under its default name, displayed otherwise; the reference is accepted and resolves to nothing |
| `Redirects.FollowRedirectExact` | src/soc/isa/semantics/register.rs:200-254 | Following a redirect gives a location exactly when it is the end of the chain after one to eight hops |
| `Redirects.TooDeepFrom` | src/soc/isa/semantics/register.rs:200-254 | The depth error comes exactly when eight hops lead to a location that is redirected again |
| `Redirects.CycleRejected` | src/soc/isa/semantics/register.rs:200-254 | Every cycle of redirects is rejected |
| `DeclaredRedirects.AcyclicIff` | src/soc/isa/validator/fields.rs:53-109 | The redirects of an accepted document are acyclic exactly when no chain from a reopened name, one that a redirect declares although its space has it, leads back to that name |
| `DeclaredRedirects.CycleReopens` | src/soc/isa/space.rs:37-42 | Every cycle goes through a reopened name |
| `DeclaredRedirects.RedirectsAreAcyclic` | src/soc/isa/validator/fields.rs:53-109 | In particular, where no redirect reopens a name of its space, no chain of redirects returns to its start |
| `DeclaredRedirects.TargetIsEarlier` | src/soc/isa/space.rs:16-66 | There, the target of a redirect, when redirected itself, is declared strictly earlier |
| `DeclaredRedirects.RedirectsSettle` | src/soc/isa/semantics/register.rs:200-254 | There, every chain stops within as many hops as there are items, and following it fails exactly when it has more than eight hops or ends in a redirect that names a subfield |
| `DeclaredRedirects.NoReopenedIff` | src/soc/isa/space.rs:16-52 | Exactly when no redirect reopens a name: no declaration with a redirect repeats a tag or an element name declared before in its space |
| `DeclaredRedirects.ReopenedTagCycles` | src/soc/isa/space.rs:37-42 | An accepted document with a cycle: a later redirect of a field that is there already is skipped by the validator and replaces the field in the machine |
| `DeclaredRedirects.ElementTagCycles` | src/soc/isa/space.rs:68-78 | An accepted document with a cycle in which every tag is declared once: the redirect reopens the element of an array |
| `DeclaredRedirects.SubfieldRedirectFails` | src/soc/isa/validator/fields.rs:84-96 | A redirect to a subfield is accepted and can never be followed |
| `KnownReferences.DeclaredMeans` | src/soc/isa/machine/register.rs:487-623 | Every register declared without a redirect is in the schema that builds, with its own size, else that of its space, else 64 bits, and with the indexes and labels of its declaration |
| `Validation.ValidatedBuilds` | src/soc/isa/machine/mod.rs:73-163 | Documents the validator accepts, with every instruction inside a space, build their spaces, forms, fields and patterns, or fail on a bit spec, a mask literal or a word width only |
| `Validation.ValidatedBuildsIff` | src/soc/isa/validator/mod.rs:37-60 | Accepted documents with loose instructions: they build, or fail on a bit spec, a mask literal or a word width only, when no loose mask is uncovered, and they fail when one is: its space undeclared, or a logic space and a field selector that names no field of its form |
| `Validation.FormSimulates` | src/soc/isa/logic.rs:24-57 | The simulation step: a form that the validator registers is added to the machine with the same fields, or has a bad bit spec |
| `Validation.LooseInstructionUnchecked` | src/soc/isa/machine/disassembly.rs:332-358 | The input: a loose instruction in a declared logic space, whose mask names a field without a form, is accepted and fails to build |
| `Validation.BuiltForms` | src/soc/isa/machine/space.rs:55-98 | Every field of every built form lies in the word of its space, and every operand is a field |
| `Validation.BuiltSubfields` | src/soc/isa/machine/space.rs:55-98 | In every machine that is built, a form has each declared subfield where its own bit spec says in the words of the space |
| `Validation.PushedFields` | src/soc/isa/machine/space.rs:55-98 | A form keeps the fields it inherits, has its own and no others, and its operands are the inherited ones, then its own in order |
| `Validation.SpaceQuietIff` | src/soc/isa/validator/spaces.rs:7-62 | A space is accepted exactly when its name is new, a logic space has a word size, and another space no enable expression |
| `Validation.FormQuietIff` | src/soc/isa/validator/forms.rs:6-70 | A form is accepted exactly in a known logic space, under a new name, with a known parent, and with subfields that are all new to it and its parent |
| `Validation.InstructionQuietIff` | src/soc/isa/validator/instructions.rs:5-70 | An instruction is accepted exactly with a form of its logic space that has every named field of its mask |
| `Validation.TargetsIff` | src/soc/isa/space.rs:16-66 | Declarations without details need registers that are there, those with details registers that are not, each once, and those that only redirect neither |
| `Validation.DeclaredNames` | src/soc/isa/space.rs:68-78 | A range declares its registers from the first to the last index, both included |
| `Validation.RedirectAccepted` | src/soc/isa/validator/fields.rs:53-110 | A redirect is accepted exactly to a register declared by then, or to one of its subfields |
| `ValidationRun.DocumentValidator.CheckAll` | src/soc/isa/validator/mod.rs:37-60 | The pass over the items leaves the tables and diagnostics that the specification says |
| `ValidationRun.DocumentValidator.CheckForm` | src/soc/isa/validator/forms.rs:6-71 | One form: registered in the table of its space, or one diagnostic |
| `ValidationRun.DocumentValidator.CheckField` | src/soc/isa/validator/fields.rs:7-51 | One field: its redirect checked first, then its names registered up to the first refusal |
| `ValidationRun.DocumentValidator.CheckRedirect` | src/soc/isa/validator/fields.rs:53-109 | A redirect is reported when it names no field, an unknown space, field or subfield, or more than field and subfield |
| `ValidationRun.DocumentValidator.CheckInstruction` | src/soc/isa/validator/instructions.rs:5-85 | One instruction: its space, its form, and one diagnostic for each unknown mask field |
| `ValidationRun.RegisterNames` | src/soc/isa/space.rs:16-52 | The loop over the expanded names, which stops half-way at a refusal |
| `ValidationRun.MergeSubfields` | src/soc/isa/logic.rs:36-54 | The merge loop finds the first subfield that is inherited or repeated |
| `ValidationRun.BuildForm` | src/soc/isa/machine/space.rs:66-96 | The subfields pushed onto a copy of the parent, with operand order |
| `BitSpecs.SpecMeans` | src/soc/prog/types/bitfield.rs:97-175 | A bit spec is accepted exactly when its ranges lie in the container, its literals have 1 to 64 bits, it has something to read, one pad at most, and room; it reads the tokens side by side, the first on top, ranges counted from the high end, and a pad adds zeros or the sign |
| `BitSpecs.OneRangeMeans` | src/soc/prog/types/bitfield.rs:603-617 | The range start..end of n bits reads bit n - 1 - end + j of the word as bit j |
| `BitSpecs.OneRangeWrites` | src/soc/prog/types/bitfield.rs:251-330 | What is written to the range stands in those bits, and all others stay |
| `BitSpecs.MatchMeans` | src/soc/isa/machine/disassembly.rs:246-330 | A word matches the pattern of an instruction whose mask fields share no bit exactly when each of them reads its constant from the word |
| `BitSpecs.SpecificityMeans` | src/soc/isa/machine/disassembly.rs:246-330 | The specificity of a pattern is the number of bits it fixes |
| `BitSpecs.WordBit` | src/soc/isa/machine/disassembly.rs:361-384 | Bit 8k + i of a decoded word is bit i of byte k, counted from the first byte in little-endian and from the last in big-endian spaces |
| `BitSpecs.CutBit` | src/soc/isa/machine/assembly.rs:260-275 | The bytes of an assembled word have its bits in the same places |
| `BitSpecs.HeadWordBit` | src/soc/isa/machine/disassembly.rs:63-107 | The word a space sees has the bits of the bytes at the cursor |
| `BitSpecs.EnableEqualMeans` | src/soc/isa/machine/disassembly.rs:454-482 | An enable expression that compares a field with a constant takes the words whose field has the bits of the constant, with `!=` the others |
| `BitSpecs.EnableConnectives` | src/soc/isa/machine/disassembly.rs:454-513 | A logical and takes the words that both sides take, a logical or those that one takes, and conditions compare as truth values |
| `BitSpecs.EnableFieldMeans` | src/soc/isa/machine/disassembly.rs:395-400 | A field alone takes the words in which one of its bits is set |
| `BitFieldLaws.PutGetIffDisjoint` | src/soc/prog/types/bitfield.rs:227-330 | Whatever is written to a field is read back exactly when its slices are pairwise disjoint |
| `BitFieldLaws.PutGet` | src/soc/prog/types/bitfield.rs:251-330 | An accepted value is read back at the full padded width |
| `BitFieldLaws.GetPut` | src/soc/prog/types/bitfield.rs:227-330 | Writing back what was read leaves the container unchanged, even for overlapping slices |
| `BitFieldLaws.PutPut` | src/soc/prog/types/bitfield.rs:251-330 | Of two writes the last one wins |
| `BitFieldLaws.WriteFrame` | src/soc/prog/types/bitfield.rs:251-330 | A write changes no bit outside the slices of the field |
| `BitFieldLaws.RejectionIsStable` | src/soc/prog/types/bitfield.rs:251-330 | Whether and how a value is refused does not depend on the container |
| `BitFieldLaws.AcceptedIffReadable` | src/soc/prog/types/bitfield.rs:251-330 | A field with disjoint slices accepts exactly the values that some container shows |
| `BitFieldLaws.ReadSignedMeaning` | src/soc/prog/types/bitfield.rs:236-249 | Signed reading is two's complement in the padded width |
| `BitFieldLaws.SignedOperandReencodes` | src/soc/prog/types/bitfield.rs:236-330 | A decoded signed operand can be written again exactly when it is not negative or the padded field fills 64 bits |
| `BitFieldLaws.NegativeRejected` | src/soc/prog/types/bitfield.rs:251-270 | Every negative operand is too wide for every field of fewer than 64 bits |
| `BitFieldLaws.EncodeConstantPlaces` | src/soc/isa/machine/space.rs:182-197 | The mask is the set of bits of the field, and the constant is placed under it |
| `BitFieldLaws.ExtractData` | src/soc/prog/types/bitfield.rs:332-350 | The accumulating loop reads the concatenated segments |
| `BitFieldLaws.WriteLoop` | src/soc/prog/types/bitfield.rs:251-330 | The loop over the segments writes what the specification writes, or refuses with the same error |
| `CodecRoundTrip.ProgramRoundTrip` | src/soc/isa/machine/disassembly.rs:63-143 | Assembling any list of lines, over spaces of different widths and both byte orders, and concatenating the bytes disassembles to exactly those lines at the right addresses, with no unknown word |
| `CodecRoundTrip.ProgramOperandsRoundTrip` | src/soc/isa/machine/disassembly.rs:109-143 | Each decoded entry holds the operand values its line was assembled from |
| `CodecRoundTrip.AssembledWord` | src/soc/isa/machine/assembly.rs:41-106 | An encoded word fits its space, matches its own pattern and holds its operands |
| `CodecRoundTrip.OwnPatternWins` | src/soc/isa/machine/disassembly.rs:213-218 | On its own word a line's pattern is the best match among all patterns |
| `CodecRoundTrip.WordOfBytes` | src/soc/isa/machine/disassembly.rs:361-371 | Laying a word out in bytes and decoding it gives the word, in both byte orders |
| `Encoding.FoldsAgree` | src/soc/isa/machine/disassembly.rs:266-296 | For any list of mask fields, overlapping ones included, the pattern builder and the encoder compute the same word, and the value lies inside the mask |
| `Encoding.WriteOperandsReadBack` | src/soc/isa/machine/assembly.rs:75-97 | Operands placed in separate fields all read back, and no other bit changes |
| `Encoding.EncodeWithOperands` | src/soc/isa/machine/assembly.rs:41-106 | The two loops and the buffer give the bytes, or the first error, a missing or unaligned word size included |
| `Encoding.BuildPatternLoop` | src/soc/isa/machine/disassembly.rs:246-330 | The loop over mask and value builds the pattern, or the first error, a missing or unaligned word size included |
| `Encoding.WriteWord` | src/soc/isa/machine/assembly.rs:260-275 | The buffer is filled in place with the bytes of the word in either order |
| `Decoding.BestMatchWins` | src/soc/isa/machine/disassembly.rs:213-218 | A match is found exactly when some pattern matches, and it is the last among those of greatest popcount |
| `Decoding.GeneralPatternLoses` | src/soc/isa/machine/disassembly.rs:213-218 | A pattern whose mask is a strict part of another match's mask is never chosen |
| `Decoding.SelectSpaceFirst` | src/soc/isa/machine/disassembly.rs:199-211 | The space chosen is the first that fits and is enabled |
| `Decoding.DecodeSpacesSorted` | src/soc/isa/machine/disassembly.rs:159-195 | The decode spaces are the logic spaces in order of width |
| `Decoding.ListingLosesNothing` | src/soc/isa/machine/disassembly.rs:63-107 | The words of a listing, laid out again, are the bytes it was read from |
| `Decoding.ListingAddresses` | src/soc/isa/machine/disassembly.rs:63-107 | Every address is the base plus the sizes of the words before it, modulo 2^64 |
| `Decoding.ListingStops` | src/soc/isa/machine/disassembly.rs:70-78 | What is left over after a listing is accepted by no space |
| `Decoding.DecodeIsMatched` | src/soc/isa/machine/disassembly.rs:109-143 | The second loop finds exactly the matched words of the first one's listing |
| `Decoding.PairingRightIff` | src/soc/core/harness.rs:199-240 | Pairing decoded entries with listing lines is right up to an entry exactly when no word before it was unmatched |
| `Decoding.UnknownWordShiftsPairs` | src/soc/core/harness.rs:199-240 | The input: two words, the first unknown; the one decoded entry is paired with the line of the other word |
| `Decoding.DisassembleFrom` | src/soc/isa/machine/disassembly.rs:63-107 | The loop over cursor and address gives the listing |
| `Decoding.DecodeInstructions` | src/soc/isa/machine/disassembly.rs:109-143 | Its hand-copied twin gives the decoded entries |
| `AssemblyText.ListingIsSource` | src/soc/isa/machine/assembly.rs:24-32 | The listing of an assembled program with legible operands is source text for it: assembled again line by line it gives the same bytes |
| `AssemblyText.OperandsInPlace` | src/soc/isa/machine/assembly.rs:108-160 | Resolved operands are as many as their texts, and the k-th text is read as the k-th operand of the instruction, or of its form |
| `AssemblyText.NamedFirst` | src/soc/isa/machine/assembly.rs:34-39 | The instruction of a mnemonic is the first of exactly that name |
| `AssemblyText.PrintedLineAssembles` | src/soc/isa/machine/disassembly.rs:220-244 | A decoded line, printed as mnemonic and operands, assembles to the bytes it came from |
| `AssemblyText.LineTextRoundTrip` | src/soc/isa/machine/assembly.rs:163-179 | Cutting a printed line gives its mnemonic and its operands |
| `AssemblyText.LeadingSpaceSwallowsLine` | src/soc/isa/machine/assembly.rs:163-179 | White space before the mnemonic makes the whole rest of the line the mnemonic |
| `AssemblyText.ResolveOperandValues` | src/soc/isa/machine/assembly.rs:108-160 | The loop over names and texts gives the operand values, or the first error |
| `OperandText.RegisterOperandIff` | src/soc/isa/machine/format.rs:10-22 | A register operand reads back exactly when the register is declared, is no redirect, and its declared range holds the value (registers without display patterns, whose names are not one another with a number added) |
| `OperandText.OperandReadsBackIff` | src/soc/isa/machine/assembly.rs:181-203 | Any operand reads back exactly when its index is in the range of its register or of a namesake, its immediate is not cut by the printer, it is no bare register operation, and it fits 63 bits |
| `OperandText.LayoutMakesLabelsUnique` | src/soc/core/specification.rs:145-155 | A machine whose core can be laid out has unique labels in every space, with any display patterns |
| `OperandText.SchemaElements` | src/soc/isa/machine/register.rs:685-702 | The elements of the schema are the indexes of the declared registers, with the labels they print |
| `OperandText.DefaultLabelsDistinct` | src/soc/isa/machine/register.rs:81-91 | Without a display pattern an array has one label for each index |
| `OperandText.ImmediateText` | src/soc/isa/machine/format.rs:64-74 | An immediate prints its low data bits in as many hexadecimal digits as they need |
| `OperandText.NegativeImmediateRefused` | src/soc/isa/machine/format.rs:64-77 | A negative sign-extended immediate is printed without its extension, and the number read back is refused |
| `Numerals.DecimalReadsBack` | src/soc/isa/machine/assembly.rs:205-231 | A printed decimal reads back exactly when it is below 2^63 |
| `Numerals.PrefixedReads` | src/soc/isa/machine/assembly.rs:205-231 | Digits after 0x, 0b and 0o, in either case of the letter, read back in that base exactly when they are below 2^63 |
| `Numerals.MinusNegates` | src/soc/isa/machine/assembly.rs:205-231 | A minus sign negates what follows, and keeps its error |
| `Numerals.UnderscorePassed` | src/soc/isa/machine/assembly.rs:205-231 | Underscores between digits are passed over |
| `Numerals.HexReadsBack` | src/soc/isa/machine/assembly.rs:205-231 | So does a padded hexadecimal literal |
| `HostArith.AddExact` | src/soc/isa/machine/host.rs:82-103 | For every width 0 to 64, value plus carry times 2^width is the sum of the operands modulo 2^width and the carry in |
| `HostArith.SubExact` | src/soc/isa/machine/host.rs:66-71 | The difference with borrow, likewise |
| `HostArith.AddOverflowExact` | src/soc/isa/machine/host.rs:82-103 | Overflow exactly when the signed sum leaves the signed range of the width |
| `HostArith.SubOverflowExact` | src/soc/isa/machine/host.rs:113-121 | Overflow exactly when the signed difference leaves it |
| `HostArith.MulExactInWidth` | src/soc/isa/machine/host.rs:73-80 | The product in two halves is exact for operands inside the width |
| `HostArith.MulExactIff` | src/soc/isa/machine/host.rs:73-80 | For any operands it is exact exactly when the product is below 2^(64 + width) |
| `HostArith.AddLimbsExact` | src/soc/isa/machine/host.rs:62-65 | Adding limb by limb with the carry gives the exact sum of n-limb numbers |
| `HostArith.SubLimbsExact` | src/soc/isa/machine/host.rs:66-71 | Subtracting limb by limb with the borrow gives the exact difference |
| `Parser.ExpressionRoundTrip` | src/soc/isa/semantics/program.rs:157-405 | Parsing the tokens of a printed expression, nine levels, left associative, with tuples, calls and bit slices, gives the expression and stops where it ends |
| `Precedence.BindingIff` | src/soc/isa/semantics/program.rs:157-302 | For operands that are primaries or slices and any two operators of the listed rows, x op y next z is read as (x op y) next z exactly when next stands in the row of op or an earlier one, and as x op (y next z) exactly when it stands in a later one |
| `Precedence.SliceBinds` | src/soc/isa/semantics/program.rs:308-319 | A bit slice belongs to the operand before it |
| `Precedence.ParensHold` | src/soc/isa/semantics/program.rs:321-388 | Parentheses keep what they hold together |
| `Precedence.PrefixMeans` | src/soc/isa/semantics/program.rs:505-516 | The context prefixes are reg, macro, insn and host, in any case, and no others |
| `Precedence.AssignmentMeans` | src/soc/isa/semantics/program.rs:143-155 | A name before an equals sign is assigned |
| `Precedence.RegisterAssignmentMeans` | src/soc/isa/semantics/program.rs:470-502 | A register before an equals sign is assigned with the index and subfield that were written |
| `Parser.ParsedIsPrintable` | src/soc/isa/semantics/program.rs:161-405 | Whatever the parser returns for tokens whose slices keep their order when the bounds are cut to 32 bits can be printed |
| `Parser.ParsedIsBounded` | src/soc/isa/semantics/program.rs:518-547 | Whatever the parser returns has slice bounds of 32 bits |
| `Parser.PrintedParsesIff` | src/soc/isa/semantics/program.rs:157-405 | The text of an expression with 32-bit slice bounds parses back to it exactly when it is printable: tuples of two or more, names and prefixes of their kind, slices in order |
| `Parser.ReparseStable` | src/soc/isa/semantics/program.rs:157-405 | Printing what the parser returned and parsing it again returns the same exactly when it is printable, and it is whenever the slices of the tokens keep their order |
| `Parser.CutSliceIsRejected` | src/soc/isa/semantics/program.rs:518-547 | For all bounds in order whose low 32 bits are not: the slice is accepted, and refused when it is printed and parsed again |
| `ProgramText.StatementRoundTrip` | src/soc/isa/semantics/program.rs:143-155 | Parsing a printed statement gives the statement |
| `ProgramText.ProgramRoundTrip` | src/soc/isa/semantics/program.rs:128-141 | Parsing a printed program gives the program back exactly when every statement that ends in a call without arguments is separated from a next one that opens with a parenthesis |
| `ProgramText.BareCallSwallows` | src/soc/isa/semantics/program.rs:390-405 | Any expression that ends in a call without arguments, followed by a parenthesis with something in it, is read as a larger one |
| `ProgramText.StatementSwallows` | src/soc/isa/semantics/program.rs:143-155 | So the statement that is read is not the one that was printed |
| `ProgramText.CallSwallowsTuple` | src/soc/isa/semantics/program.rs:390-405 | Why a separator is needed before a parenthesis: a call without arguments takes the next line's tuple as its arguments |
| `ParserRun.TokenParser.ParseLevelLoop` | src/soc/isa/semantics/program.rs:161-302 | The loop of every precedence level over the token stream with one token of lookahead parses as specified; it ends because every round consumes a token |
| `ParserRun.TokenParser.ParsePrimaryToken` | src/soc/isa/semantics/program.rs:321-388 | Primary expressions, parenthesised ones and tuples |
| `ParserRun.TokenParser.ParseStatementTokens` | src/soc/isa/semantics/program.rs:143-155 | Assignments, returns and expression statements |
| `ParserRun.ParseProgramTokens` | src/soc/isa/semantics/program.rs:128-141 | The statement loop gives the program, or the first error |
| `HexMerge.ImageRoundTrip` | obsolete/dotnet/programs/binary/IntelHexidecimalFile.cs:331-399 | Reading a written image of disjoint blocks below 2^32 gives the same byte at every address and the entry point, with no checksum warning, and touching blocks merged, exactly when there is a byte to write |
| `HexMerge.WrittenIsMerged` | obsolete/dotnet/programs/binary/IntelHexidecimalFile.cs:260-291 | What the reader makes of the written file are the chunks of the writer, merged where they touch |
| `HexRoundTrip.LinesRead` | obsolete/dotnet/programs/binary/IntelHexidecimalFile.cs:100-257 | The lines of any rows that the writer emits are read as those rows, without a warning |
| `HexRoundTrip.ImageRead` | obsolete/dotnet/programs/binary/IntelHexidecimalFile.cs:100-257 | Reading all lines of a file places every chunk, across 64 KiB pages, and finds the entry |
| `IntelHex.LineRoundTrip` | obsolete/dotnet/programs/binary/IntelHexidecimalFile.cs:417-507 | The text of a row parses to what the row carries, with the checksum computed for it |
| `IntelHex.ChecksumBalances` | obsolete/dotnet/programs/binary/IntelHexidecimalFile.cs:466-507 | The bytes of a whole line sum to zero modulo 256 |
| `IntelHex.ChecksumDetects` | obsolete/dotnet/programs/binary/IntelHexidecimalFile.cs:466-507 | A change of any one byte changes the checksum |
| `HexKinds.BaseLine` | obsolete/dotnet/programs/binary/IntelHexidecimalFile.cs:177-199 | Lines of kind 02 set the base to 16 times their number and of kind 04 to 2^16 times it; with another length than 2 they end the reading |
| `HexKinds.EntryLine` | obsolete/dotnet/programs/binary/IntelHexidecimalFile.cs:200-225 | Lines of kind 03 and 05 set the entry to their 32-bit number; with another length than 4 they end the reading |
| `HexKinds.DataLine` | obsolete/dotnet/programs/binary/IntelHexidecimalFile.cs:141-176 | Lines of kind 00 place their bytes at the base plus their offset, in the current range if it ends there and else in a new one |
| `HexKinds.OtherLine` | obsolete/dotnet/programs/binary/IntelHexidecimalFile.cs:248-248 | Lines of kind 01 and of kinds above 05 change nothing |
| `HexKinds.MarkAndLength` | obsolete/dotnet/programs/binary/IntelHexidecimalFile.cs:100-133 | Lines without the mark or shorter than 11 characters are passed over, others of the wrong length end the reading |
| `HexKinds.WarnsIff` | obsolete/dotnet/programs/binary/IntelHexidecimalFile.cs:250-256 | A line of kind 00, 03, 04 or 05 counts as bad exactly when the sum of its bytes is not zero modulo 256 |
| `HexKinds.SegmentWarnsIff` | obsolete/dotnet/programs/binary/IntelHexidecimalFile.cs:226-256 | The exact condition for lines of kind 02, whose checksum is computed over the address and not over the segment |
| `HexKinds.BalancedSegmentWarns` | obsolete/dotnet/programs/binary/IntelHexidecimalFile.cs:489-494 | The input: the line of segment 1000 hex with the checksum the format asks for counts as bad |
| `HexStreams.ToStream` | obsolete/dotnet/programs/binary/IntelHexidecimalFile.cs:331-399 | The nested write loops, which reuse two records, write exactly the lines of the image |
| `HexStreams.WritePage` | obsolete/dotnet/programs/binary/IntelHexidecimalFile.cs:361-383 | The inner loop writes the rows of one 64 KiB page and stops at its end |
| `HexStreams.WriteBlock` | obsolete/dotnet/programs/binary/IntelHexidecimalFile.cs:350-386 | A block is written with an extended address wherever the page changes |
| `HexStreams.FromStreamReader` | obsolete/dotnet/programs/binary/IntelHexidecimalFile.cs:40-291 | The reading loop, the ranges and the second pass into the blocks give the image, its rejection, or the warnings |
| `HexStreams.HexRow.FinalizeLine` | obsolete/dotnet/programs/binary/IntelHexidecimalFile.cs:417-464 | A record becomes its line and keeps its checksum |
| `DeviceBus.LookupIsScan` | obsolete/dotnet/sysbus/DeviceBus.cs:141-161 | On a valid bus a lookup in one bucket finds exactly the range of the whole bus that contains the address |
| `DeviceBus.CarefulRunIsScan` | obsolete/dotnet/sysbus/DeviceBus.cs:198-305 | That holds after every sequence of registrations and redirects, of any sizes, whose accepted redirects start at unmapped addresses |
| `DeviceBus.RunKeepsValid` | obsolete/dotnet/sysbus/DeviceBus.cs:198-305 | Every such sequence keeps the buckets sorted and disjoint |
| `DeviceBus.RunKeepsInside` | obsolete/dotnet/sysbus/DeviceBus.cs:198-305 | When its sums do not wrap either, every range stays a part of its device |
| `DeviceBus.InsertValidIff` | obsolete/dotnet/sysbus/DeviceBus.cs:198-233 | An accepted insertion adds its range only, and keeps the bus valid exactly when its start was not mapped, or it wraps and starts where the range mapped there does |
| `DeviceBus.InsertFailsIff` | obsolete/dotnet/sysbus/DeviceBus.cs:198-233 | A range cannot be inserted exactly when it spans buckets or another range on the bus starts in it |
| `DeviceBus.RegisterKeeps` | obsolete/dotnet/sysbus/DeviceBus.cs:248-272 | A registration of any address and size keeps the bus valid; accepted, it maps the range of the device, refused, nothing |
| `DeviceBus.FailedRegistrationStays` | obsolete/dotnet/sysbus/DeviceBus.cs:266-271 | A registration fails and changes the bus exactly when its start is not mapped, its size is not zero, its name is free, and it spans buckets or another range starts in it; then its name is taken and nothing is mapped |
| `DeviceBus.NameStaysTaken` | obsolete/dotnet/sysbus/DeviceBus.cs:266-271 | Under a name that is taken every registration fails, wherever it is tried and whatever operations come before it |
| `DeviceBus.RefusedNameIsTaken` | obsolete/dotnet/sysbus/DeviceBus.cs:266-271 | The input: a device refused because it reaches into another one cannot be registered elsewhere |
| `DeviceBus.RedirectKeepsIff` | obsolete/dotnet/sysbus/DeviceBus.cs:284-305 | An accepted redirect keeps the bus valid exactly when its source was not mapped, which the code does not check, or it wraps and starts where the range mapped there does |
| `DeviceBus.MappedSourceHides` | obsolete/dotnet/sysbus/DeviceBus.cs:284-305 | The input: a redirect from a mapped source is accepted, and its range is on the bus and not found |
| `DeviceBus.RedirectReaches` | obsolete/dotnet/sysbus/DeviceBus.cs:284-305 | After a redirect from an unmapped source, source and target addresses reach the same byte of the device |
| `DeviceBus.ReachInside` | obsolete/dotnet/sysbus/BusRange.cs:15-25 | A mapped address reaches a byte inside its device |
| `DeviceBus.InsertKeepsReach` | obsolete/dotnet/sysbus/DeviceBus.cs:198-233 | A new range at an unmapped address moves no address that was mapped before |
| `BusAccess.JumpAgreesIff` | obsolete/dotnet/sysbus/AddressBus.cs:101-122 | A jump reaches what a fresh lookup reaches, except at the end of the cached range, where it does exactly when a range starts there that goes on in the same device without a break |
| `BusAccess.JumpPastTheEnd` | obsolete/dotnet/sysbus/AddressBus.cs:101-122 | The input: a jump to the first byte of the next device stays in the first one, a byte behind its end |
| `BusAccess.JumpKeepsConsistent` | obsolete/dotnet/sysbus/AddressBus.cs:101-122 | Every jump keeps the cached range on the bus and the last looked-up jump inside it |
| `BusAccess.JumpAddress` | obsolete/dotnet/sysbus/AddressBus.cs:52-56 | After a jump that was found the bus address is the address jumped to |
| `BusAccess.RelativeBaseIff` | obsolete/dotnet/sysbus/AddressBus.cs:92-100 | After a found jump a relative jump by nothing is found exactly when the base is below 2^63, and then stays at the address jumped to exactly when that was looked up anew or is the address last looked up |
| `BusAccess.RelativeJumpMeans` | obsolete/dotnet/sysbus/AddressBus.cs:92-100 | After a jump that was looked up, a relative jump is found exactly when it stays in the device, and while it stays in the range it goes where the bus has the address that many bytes on |
| `BusAccess.RelativeJumpGoesBack` | obsolete/dotnet/sysbus/AddressBus.cs:92-100 | The input: a jump inside the device last looked up, and a relative jump by nothing that goes back |
| `BusAccess.GrowthKeepsConsistent` | obsolete/dotnet/sysbus/DeviceBus.cs:198-233 | A cursor stays right while ranges are only added |
| `BusRun.HashedDeviceBus.InsertRange` | obsolete/dotnet/sysbus/DeviceBus.cs:198-233 | The insertion by shifting puts the range in order into its bucket, or reports why not |
| `BusRun.HashedDeviceBus.ResolvesToRange` | obsolete/dotnet/sysbus/DeviceBus.cs:141-161 | The search loop finds what the specification finds |
| `BusRun.HashedDeviceBus.RegisterDevice` | obsolete/dotnet/sysbus/DeviceBus.cs:248-272 | Registration with its partial effects on failure |
| `BusRun.HashedDeviceBus.Redirect` | obsolete/dotnet/sysbus/DeviceBus.cs:284-305 | Redirection with its checks in order |
| `BusRun.BusCursor.JumpTo` | obsolete/dotnet/sysbus/AddressBus.cs:101-122 | A jump through the cached range or a fresh lookup |
| `BitSlices.LosslessIff` | obsolete/dotnet/programs/types/BitSlice.cs:32-50 | A construct of at most 64 bits gives back every value it stored exactly when it has no pads and no overlapping masks |
| `BitSlices.GatherOfScatter` | obsolete/dotnet/programs/types/BitSlice.cs:32-50 | Without pads and overlaps, gathering what was scattered gives the value modulo 2^(total size) |
| `BitSlices.DisjointFits` | obsolete/dotnet/programs/types/BitSlice.cs:52-119 | Such slices never ask for more than 64 bits |
| `BitSlices.ScatterKeepsRest` | obsolete/dotnet/programs/types/BitSlice.cs:99-119 | Scattering changes no bit outside the masks, whatever the slices |
| `BitSlices.ScatterOfGather` | obsolete/dotnet/programs/types/BitSlice.cs:32-50 | Storing what is there already changes nothing, even with overlaps and pads |
| `BitSlices.ScatterTwice` | obsolete/dotnet/programs/types/BitSlice.cs:42-50 | Of two values scattered the last one wins |
| `BitSlices.BitConstruct.ReadFrom` | obsolete/dotnet/programs/types/BitSlice.cs:32-40 | The folding loop gathers |
| `BitSlices.BitConstruct.WriteOver` | obsolete/dotnet/programs/types/BitSlice.cs:42-50 | The loop from the last slice back scatters, and returns the word that the original computes and drops |
| `BitSlices.BitConstruct.AddSlice` | obsolete/dotnet/programs/types/BitSlice.cs:22-31 | A slice is added exactly when size and shift fit the class |

## Findings

Where the code does not keep what is expected of it, the model keeps the code, proves when it does, and names an input
or a whole family of inputs for which it does not.

- **Big-endian cores.** `write_bits` counts a slice from the low end of its chunk, big-endian reads count it from the
  high end. So a register need not read back (`RegisterFile.ReadsBackIff`), and disjoint registers of one word can
  disturb each other (`RegisterFile.BigHalvesDisturb`; exactly when: `RegisterFile.WriteKeepsIff`,
  `RegisterFile.BigDisturbsIff`). The frame theorem carries that condition.
- **Indexes of register targets** are not visited by the analyzer (`Soundness.UncheckedIndexFails`); soundness holds for
  machines whose target indexes are in scope.
- **Operands that are no subfields** are accepted in scope and get no value (`Soundness.UndeclaredOperandFails`; exactly
  when: `Soundness.DecodingCoversIff`).
- **Redirect cycles.** Declaring each tag once does not make redirects acyclic: a redirect may reopen the element of an
  array (`DeclaredRedirects.ElementTagCycles`), or a tag (`DeclaredRedirects.ReopenedTagCycles`). They are acyclic exactly
  when no chain from a reopened name leads back to it (`DeclaredRedirects.AcyclicIff`), in particular when no redirect
  repeats a name its space has (`DeclaredRedirects.RedirectsAreAcyclic`, `DeclaredRedirects.NoReopenedIff`).
- **Redirects to subfields** are accepted and cannot be followed (`DeclaredRedirects.SubfieldRedirectFails`).
- **References to redirects** that the analyzer accepts can still find nothing
  (`KnownReferences.DisplayedTargetIsNowhere`; what can go wrong: `KnownReferences.RedirectedReferenceResolves`).
- **Loose instructions** are not validated (`Validation.LooseInstructionUnchecked`; exactly which fail:
  `Validation.ValidatedBuildsIff`).
- **Negative operands** are decoded but cannot be encoded (`BitFieldLaws.NegativeRejected`), and negative immediates are
  printed without their sign extension (`OperandText.NegativeImmediateRefused`).
- **A `reg` operation without a register** prints `rN`, which the assembler cannot read (`OperandText.OperandReadsBackIff`).
- **Leading white space** in an assembly line makes the rest of it the mnemonic (`AssemblyText.LeadingSpaceSwallowsLine`).
- **A call without arguments takes a parenthesis** that the next statement opens with (`ProgramText.CallSwallowsTuple`;
  exactly when programs come back: `ProgramText.ProgramRoundTrip`).
- **Slice bounds are cut to 32 bits** after they are compared (`Parser.CutSliceIsRejected`; exactly which expressions come
  back: `Parser.ReparseStable`).
- **Pairing in a block** goes wrong from the first unmatched word on (`Decoding.UnknownWordShiftsPairs`; exactly when:
  `Decoding.PairingRightIff`).
- **Redirects on the bus** do not check their source (`DeviceBus.MappedSourceHides`; exactly when it matters:
  `DeviceBus.RedirectKeepsIff`).
- **A registration that fails at the insertion** keeps its name (`DeviceBus.RefusedNameIsTaken`,
  `DeviceBus.NameStaysTaken`; exactly when: `DeviceBus.FailedRegistrationStays`).
- **The end of a cached range** counts as inside (`BusAccess.JumpPastTheEnd`; exactly when it matters:
  `BusAccess.JumpAgreesIff`), and **relative jumps** keep an old base (`BusAccess.RelativeJumpGoesBack`; exactly when:
  `BusAccess.RelativeBaseIff`).
- **A HEX image without bytes** is written as a file that the reader rejects (`HexMerge.ImageRoundTrip`).
- **Lines of kind 02** count as having a bad checksum when they have the right one, except for some segments
  (`HexKinds.BalancedSegmentWarns`; exactly when: `HexKinds.SegmentWarnsIff`).
- **Subfields lent by a redirect** to a narrower register do not read back what lies outside it; exactly when a subfield
  does is `RegisterAccess.FieldReadsBackIff`.
- **`BitConstruct.WriteOver`** drops the word it computes; the model returns it.

## Left out

- DeclaredRedirects.RedirectsSettle: is stated where no name is reopened; where one is, `DeclaredRedirects.AcyclicIff` says when there is a cycle.
- OperandText.RegisterOperandIff: is stated for registers without display patterns; with patterns `OperandText.OperandReadsBackIff` is exact over the labels that the patterns print.
- AssemblyText.ListingIsSource: asks that each mnemonic names its first instruction and that operands are legible; labels with commas or outer white space are outside it.
- CodecRoundTrip.ProgramRoundTrip: asks of each line what decoding needs, that its own space is the first to accept its bytes and no other pattern matches as specifically.
- BitSlices.LosslessIff: covers constructs of at most 64 bits in all; `BitSlice.CreateSlice`, whose size is computed the wrong way round, is not modelled, well-formed slices are.
- Display patterns of registers are functions from index to text; the rendering of `%` conversions and of instruction display templates is not modelled.
- The character lexer of the semantics parser, the `.isa` directive parser, the spec-string lexer of bit fields, and file loading: tokens and declarations are the input.
- The compilation of enable expressions from text, and `ensure_enable_coverage`: enable predicates are taken compiled, and validation asks no coverage of them.
- A space that gives its word size twice: the validator takes the first, the machine the last; the model has one word size for each space.
- Subfield-append declarations are validated as in the source; in the machine they replace the register, which is modelled for redirects only.
- Type arena, symbol table and symbol builder: their defining files are not part of this model.
- Host services other than the software host, trace events, diagnostics texts and error texts.
- The cache of a data handle between accesses, and concurrent users of one memory.
- The overflow of 32-bit cursors in the layout builder, and of the sign applied to the smallest 64-bit number in a numeric literal, which the model wraps.
- Words of more than 64 bits, for which the source shifts a 64-bit number too far; the model fills their bytes with zeros.
- Hash shifts of 31 bits and more in the device bus, unregistering, and removal of redirects, which the source does not implement.
- `MemoryUnit` and the processor matching of the HEX image, line endings, characters outside ASCII, and Motorola S-records.
- PowerPC opcode tables, floating-point types, LEB128 readers, A2L and ELF symbols: tables or easy members.
