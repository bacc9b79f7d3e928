# A verified model of the x86 program generator

The repository generates random x86 assembly programs on top of a trimmed assembler. This project models, in Dafny, the
parts that carry its hard guarantees, and proves them for all inputs.

* **Control flow** (`Control*.dfy`, `InsnList.dfy`). The generator splices labels, jumps, loops and calls into a doubly
  linked instruction list at a moving insert position. `InsnList.List` is that list with its links; `ControlGen.Generator`
  is the generator with its insert position, label table and locks. `ControlProgram` is a small machine (program counter,
  return stack, ecx, an oracle for conditional jumps and flags) that runs the emitted text. `ControlRun.WholeRun` is the
  main theorem: whatever was generated, and whatever the random choices and the conditional jumps were, the text runs from
  its head to its last label and executes the straight-line lines that the generator meant.
* **Expressions and effective addresses** (`Expr*.dfy`, `Mref.dfy`, `X86.dfy`, `Ea*.dfy`). From the tokens between the
  brackets of a memory operand through sorted term vectors, the base/index/scale/offset split, and the ModRM/SIB bytes to
  what the disassembler reads back. `Mref.TextToAddress` joins all steps; `Mref.TextAccepted` and `EaMeaning` say which
  texts and operands are accepted, and what the bytes mean to the processor.
* **Instruction templates** (`Template*.dfy`). The bytecode that describes an instruction is walked three times: to
  measure, to emit and to disassemble. `TemplateSpec` gives each step of the bytecode a meaning; the two lengths agree.
  `TemplateRead.ItemBack` says for every bytecode exactly when the two sides agree, `TemplateBack.InsnRoundTrip` that a
  whole instruction comes back, with the prefixes that its template demands, and `TemplatePrefix.PrefixesBack` when its
  own prefixes do.
* **Floating-point constants** (`Float*.dfy`, `Arithmetic.dfy`). Six-limb arithmetic with proved bounds, rounding, packing
  into the seven formats, the text of binary and decimal constants. `FloatNearest` defines what a packed word stands for
  and what the nearest word is, independently of how the code rounds, and proves exactly when the code is right.
* **Containers** (`RbTree.dfy`, `HashProbe.dfy`, `HashTable.dfy`). The threaded tree over heap nodes, and the
  double-hashing table as a class over an array of slots that refines a map.
* **Sampling, operands, converters** (`Primes.dfy`, `Combinations.dfy`, `Traverse.dfy`, `TreePaths.dfy`, `MemAddr.dfy`,
  `MemText.dfy`, `Utf8.dfy`, `ReadNum.dfy`, `ReadNumText.dfy`). Numerals are compared with `Positional.dfy`, the sum of
  digits times powers.

Code of the repository that changes state is a class or a method over arrays and heap nodes here, proved against
specification functions; the properties are lemmas about those functions and postconditions of those methods. Whole bytes
and words are natural numbers with a bound; wrap-around, shifts and masks are written out. Random numbers and the outcomes
of conditional jumps are parameters, so that every statement holds for all of them.

Findings about the code, each with its exact condition:

* `gen_control_transfer_insn` gives -1 for the very first `jmp` or `jcc` although it emitted a label
  (`ControlGen.FirstJumpIsLost`). Its result tells whether anything was emitted if and only if the list is locked, has a
  label, or the opcode is no jump (`ControlGen.ResultTells`).
* `gen_control_transfer_finish` leaves a jump to an undefined label while control transfers are locked: the text assembles
  if and only if they are not (`ControlGen.LockDecides`, `ControlGen.SessionAssembles`), so a block that is left open
  loses the program (`ControlGen.UnclosedBlockIsLost`).
* An operand flagged for a byte displacement loses the rest of a wide one (`EaRoundTrip.WideDisplacementIsLost`); the
  address survives if and only if no forced byte is too small (`EaRoundTrip.AddressRoundTrip`; the condition is on the
  operand). Nothing in the repository sets that flag.
* The decoder stops where the encoder stopped unless a SIB byte is demanded for a 16-bit pure offset
  (`EaRoundTrip.ConsumesExactly`, an equivalence; `EaRoundTrip.MandatorySibIsLost` gives the bytes). Only the tile loads
  and stores of `x86/insns.dat:6374-6377`, which exist in long mode only, demand one.
* A bytecode is not read back as it was put out if and only if a register added to the opcode wraps it, an operand sized
  16 bits meets a 32-bit form or the other way round, a condition meets set bits, an address is lost as above, a register
  above 7 meets no LOCK standing for REX.R or a lower one does, or the prefixes are not what the bytecode wants
  (`TemplateRead.ItemBack`, an equivalence). A prefix is lost behind one of its kind that the template demands
  (`TemplatePrefix.PrefixesBack`, an equivalence).
* A floating-point constant with unbiased exponent `expmax` is packed as a NaN unless its significand rounds to a power of
  two, and a tie can be misjudged when bits fall out of the 192-bit mantissa before rounding
  (`FloatNearest.PackedNearest`, an equivalence; `FloatNearest.ExpmaxFails` and `FloatNearest.TieIsLost` give inputs for
  every format).
* Rounding away from zero goes to the next multiple above if and only if nothing or at least half a unit lies behind the
  kept bits (`FloatRound.AwayRounds`; `FloatNearest.AwayFails` gives a number for every format). Nothing calls
  `float_option`, so constants are always rounded to nearest.
* Shifting a mantissa by zero bits clears its first limb, which keeps the value if and only if that limb is zero
  (`FloatRound.ShiftRight`, `FloatRound.ShiftByZero`); no caller does.
* In hexadecimal constants `@` and the backquote, and no other characters, read as a wrong digit
  (`FloatBinary.HexvalExact`).
* The comment in `nasmlib/rbtree.c:54-58` says that equal keys lose their insertion order; the code keeps it for every
  tree (`RbTree.InsertedPosition`).
* A decimal constant can miss the nearest word only if it is closer to a rounding boundary than the error of its
  conversion and the bits that are dropped before rounding, or if its exponent is `expmax` (`FloatWord.DecimalNearest`).
* In `engine/tmplt.c:162-164` zero and one count as primes, and nothing else that is none (`Primes.IsPrime`, an
  equivalence); the search for the sampling step never gets there (`Primes.GreatestPrime`).
* A numeral with radix letters at both ends is read only if one letter is a hexadecimal digit and the other says
  hexadecimal: `0x1b` and `0b1h` are accepted, `0b1b` is not (`ReadNum.BothForms`, an equivalence).

## Model

| member | source | states |
|---|---|---|
| ControlRun.WholeRun | engine/ctrl.c:101-212 | for every sequence of generator steps, every label choice and every outcome of the conditional jumps, the finished text runs from its head to its last entry, the closing label, with an empty return stack, and has executed exactly the meant lines |
| ControlRun.GenerationOrder | engine/ctrl.c:101-212 | without flag-testing loops those lines are the straight-line lines in generation order, loop bodies `times` times and everything else once |
| ControlRun.TraceInOrder | engine/ctrl.c:110-183 | the meant run does not depend on the choices of labels or the way conditional jumps go |
| ControlShape.RandomLabelShape | engine/ctrl.c:95-99 | a random label puts exactly the next label right behind the old insert position |
| ControlShape.FirstJumpShape | engine/ctrl.c:122-126 | the first jump leaves a label and a jump to it, the first conditional jump itself, a label and a jump to it |
| ControlShape.JumpShape | engine/ctrl.c:110-127 | a later jump leaves a jump to a new label behind the old insert position, and a jump over that label in front of the chosen one; the insert position is on the new label |
| ControlShape.CondJumpShape | engine/ctrl.c:128-148 | the same for a conditional jump, which stands in front of that jump |
| ControlShape.LoopShape | engine/ctrl.c:149-172 | every entry of a loop by its place: the counter, the head label, the body, the loop instruction, the end label |
| ControlShape.CallShape | engine/ctrl.c:173-203 | every entry of a call by its place |
| ControlShape.FinishShape | engine/ctrl.c:206-212 | the closing jump is behind the insert position and the closing label at the end |
| ControlShape.SessionCount | engine/ctrl.c:101-212 | a whole session leaves as many entries of every kind as its steps say |
| ControlShape.ResultIsTarget | engine/ctrl.c:101-148 | for a later jump the result is the label chosen, which the jump in front of it goes to |
| ControlShape.WrittenAppend | engine/ctrl.c:101-212 | the lines meant by one session after another are those of both |
| ControlShape.WrittenStraight | engine/ctrl.c:101-212 | straight-line steps mean their lines as they are |
| ControlShape.WrittenLoop | engine/ctrl.c:149-172 | a counted loop means its body `times` times, line by line |
| ControlShape.WrittenCall | engine/ctrl.c:173-203 | a call means its body once |
| ControlRun.BuildValid | engine/ctrl.c:12-204 | every list reached by any sequence of steps from the empty one is well formed: each label below the next number is defined once, every branch target is defined, control falls through the insert position |
| ControlRun.BuildFront | engine/ctrl.c:101-204 | after any run of steps control arrives at the insert position |
| ControlRun.ApplyFront | engine/ctrl.c:101-204 | every step keeps control arriving at the insert position, having executed what the step adds |
| ControlRun.RunLoopCode | engine/ctrl.c:149-172 | the loop code runs its body once per count of ecx and leaves through its end label |
| ControlRun.RunCallCode | engine/ctrl.c:173-203 | the call code runs its body once and comes back behind the call |
| ControlSplice.SpliceReach | stat/x86pg.c:201-215 | code put in behind the insert position leaves every earlier run to that position as it was, with return addresses moved, whatever runs on from there |
| ControlSplice.PadReach | engine/ctrl.c:36-44 | a jump over a new label put in front of an existing label is invisible to every run up to an entry where the return stack is empty, and the padded program goes on from there to the new label |
| ControlValid.ApplyValid | engine/ctrl.c:12-204 | every complete step keeps each label below the next number defined once, every branch target defined, and the insert position inside the list at an entry that control falls through |
| ControlValid.FinishValid | engine/ctrl.c:206-212 | so does the closing jump, after which the insert position is the last entry |
| ControlGen.Generator.Insert | stat/x86pg.c:201-215 | inserting a line at the insert position refines insertion into a sequence, and the insert position is the new entry |
| ControlGen.Generator.GenLabel | engine/ctrl.c:12-28 | a label gets the next number, and the table entry of that number is its list entry; nothing happens while control transfers are locked |
| ControlGen.Generator.UpdateInsertPosToLabel | engine/ctrl.c:46-50 | the insert position is the one entry that defines the label |
| ControlGen.Generator.GenJmpToLabel | engine/ctrl.c:36-44 | puts a jump and a new label in front of the label chosen |
| ControlGen.Generator.GenControlTransferInsn | engine/ctrl.c:101-204 | the result for every kind of instruction, -1 included, with the new list and locks |
| ControlGen.Generator.WalkTransferBlock | engine/tmplt.c:121-135 | opening a loop or call block, filling it line by line and closing it amounts to one step of the specification |
| ControlGen.Generator.Perform | engine/ctrl.c:101-204 | every step on the linked list is the step of the specification |
| ControlGen.Generator.FinishProgram | engine/ctrl.c:206-212 | the closing jump and, unless locked, its label: the new list is the closed one of the specification, and has every branch target defined if and only if control transfers are not locked |
| ControlGen.LockDecides | engine/ctrl.c:206-212 | for every list with its labels in order, complete or inside a block, the closed text assembles if and only if control transfers are not locked |
| ControlGen.SessionAssembles | engine/ctrl.c:206-212 | the same after every sequence of steps; the closed list is well formed exactly then |
| ControlGen.UnclosedBlockIsLost | engine/ctrl.c:206-212 | a program finished inside an open loop or call block never assembles |
| ControlGen.ResultTells | engine/ctrl.c:101-204 | something is emitted exactly for an unlocked jump, loop or call; the result says so if and only if the list is locked, has a label already, or the opcode is no jump |
| ControlGen.FirstJumpIsLost | engine/ctrl.c:124-125 | on the empty list a jump emits a label and itself, and -1 is returned |
| ControlGen.Generate | engine/ctrl.c:101-212 | a whole session on the linked list hands out the finished text of the specification, in which every branch target is defined |
| InsnList.List.InsertBefore | nasmlib/insnlist.c:64-80 | inserts one new entry in front of an entry, keeps links, tail and count right, and refuses a null position unless the list is empty |
| InsnList.List.InsertAfter | nasmlib/insnlist.c:82-100 | the same behind an entry, moving the tail when needed |
| InsnList.List.InsertTail | nasmlib/insnlist.c:102-118 | the same at the end |
| InsnList.List.LinkBefore | include/queue.h:36-41 | the four pointer assignments splice one entry in |
| InsnList.List.LinkAfter | include/queue.h:29-34 | the four pointer assignments splice one entry in |
| InsnList.List.Walk | nasmlib/insnlist.c:140-158 | following the next links visits the entries in order |
| ExprSpec.SumDenotes | engine/eval.c:122-177 | adding two vectors adds what they stand for, modulo 2^64 |
| ExprSpec.SumSorted | engine/eval.c:122-177 | the sum of strictly sorted vectors is strictly sorted |
| ExprSpec.ScaledDenotes | engine/eval.c:179-193 | scaling a vector multiplies what it stands for, modulo 2^64 |
| ExprSpec.EvalDenotes | engine/eval.c:598-692 | the vector of an expression is strictly sorted and stands for the value of the expression, modulo 2^64, for every register file |
| ExprText.ReadsSum | engine/eval.c:598-692 | the parser takes exactly the tokens of a sum of signed products of signed numbers and registers, and means that sum |
| ExprAccept.SumAccepted | engine/eval.c:623-692 | the evaluator accepts such a sum if and only if no product multiplies two registers, unless the numbers before the second make zero of it |
| ExprCode.Evaluator.AddVectors | engine/eval.c:122-177 | the merge loop computes the sum of the vectors |
| ExprCode.Evaluator.ScalarMult | engine/eval.c:179-193 | the loop scales its argument in place |
| ExprCode.Evaluator.Expr4 | engine/eval.c:598-621 | the parser gives the vector of the expression it consumes, and fails exactly where the grammar or a product of two registers does |
| ExprCode.Evaluator.Expr5 | engine/eval.c:623-692 | the same for products |
| ExprCode.Evaluator.Expr6 | engine/eval.c:816-1003 | the same for numbers, registers and signs |
| ExprCode.TestSimple | engine/exprlib.c:46-64 | true exactly when nothing but one plain number is left beside zero terms |
| ExprCode.FindRelocValue | engine/exprlib.c:149-163 | the plain number of a vector |
| ExprCode.ParseMref | engine/generator.c:218-280 | the loop splits a vector into base, index, scale and offset, or refuses it, as the specification does |
| Mref.GatherKeeps | engine/generator.c:218-280 | splitting keeps the value of the vector modulo 2^32 |
| Mref.GatherAccepts | engine/generator.c:218-280 | a vector can be split if and only if there is room: at most two registers, one of two a general register taken once |
| Mref.TextAccepted | engine/generator.c:218-280 | both conditions on the text in the brackets |
| Mref.WrittenAddress | engine/generator.c:218-280 | the operand of a bracketed expression has the address that the text denotes |
| Mref.TextToAddress | engine/assemble.c:2252-2715 | end to end: the address that the emitted bytes decode to is the sum of signed products that the tokens in the brackets write, for every register file, if and only if no forced byte displacement is too small |
| EaRoundTrip.ReorganisedKeeps | engine/assemble.c:2501-2549 | all swaps of base and index and the rewrites of multiples 2, 3, 5 and 9 keep the address for every register file |
| EaRoundTrip.AddressRoundTrip | engine/assemble.c:2252-2715 | decoding an accepted operand consumes exactly its bytes, and gives the same address for every register file if and only if the operand does not force a byte displacement that is too small for its offset |
| EaRoundTrip.ConsumesExactly | engine/assemble.c:2252-2715 | the decoder stops behind the last emitted byte if and only if the operand is not a 16-bit pure offset with a mandatory SIB byte |
| EaRoundTrip.WideDisplacementIsLost | engine/assemble.c:2252-2715 | an accepted operand with a forced byte displacement whose address is lost |
| EaRoundTrip.MandatorySibIsLost | engine/assemble.c:2327-2345 | an accepted 16-bit operand with a mandatory SIB byte, whose code is six bytes of which the decoder reads one |
| EaRoundTrip.SixteenBitSibIsLost | engine/assemble.c:2252-2715 | with a mandatory SIB byte and a 16-bit pure offset the decoder ends elsewhere |
| EaRoundTrip.AddressSizeFits | engine/assemble.c:2717-2807 | the address size that is chosen is one that every memory operand can be encoded with |
| EaMeaning.AddressSizeExactly | engine/assemble.c:2717-2807 | the size of the mode if prefix and operands allow it, else the other one if they allow that, else none |
| EaMeaning.Accepted32 | engine/assemble.c:2468-2600 | an operand with 32-bit registers is accepted if and only if its scale is one of the four, or 3, 5 or 9 without a base, and esp is not its index unless it can change places |
| EaMeaning.Accepted16 | engine/assemble.c:2626-2715 | an operand with 16-bit registers is accepted if and only if it is one of the eight combinations, taken once |
| EaMeaning.ShortestDisplacement | engine/assemble.c:2246-2249 | the displacement has the least number of bytes that holds the offset, unless asked otherwise |
| EaMeaning.SibOnlyIfNeeded | engine/assemble.c:2556-2600 | without an index a SIB byte is put out for esp only |
| EaMeaning.PlainAddress | disasm/disasm.c:280-477 | what a 32-bit ModRM byte and its displacement address, in the terms of the processor manual |
| EaMeaning.SibAddress | disasm/disasm.c:280-477 | the same with a SIB byte, whose scale field is the power of two that the index is taken by |
| EaMeaning.ShortAddress | disasm/disasm.c:280-477 | the same for the table of 16-bit addressing |
| EaCode.ProcessEa | engine/assemble.c:2252-2715 | the encoder accepts and emits exactly what the specification of effective addresses says |
| EaCode.DoEa | disasm/disasm.c:280-477 | the decoder reads exactly what the specification of decoding says |
| EaCode.AddAsp | engine/assemble.c:2717-2807 | the loop over the operands chooses the specified address size |
| TemplateLength.LengthsAgree | engine/assemble.c:729-1235 | whenever the length pass succeeds, the emitted prefixes and bytes have exactly the length that it gave |
| TemplateEmit.ImmediateOut | engine/assemble.c:1405-1424 | the bytes of an immediate operand, lowest first, for every bytecode of a fixed size |
| TemplateEmit.ExtendedOut | engine/assemble.c:1394-1398 | behind an extension byte the same for the operands from the fifth on |
| TemplateEmit.SizedOut | engine/assemble.c:1425-1431 | two bytes for an immediate typed 16 bits, else four |
| TemplateEmit.OffsetOut | engine/assemble.c:1437-1440 | a memory offset in the address size |
| TemplateEmit.RelativeOut | engine/assemble.c:1442-1478 | the distance from the end of the instruction in 8, 16 or 32 bits |
| TemplateEmit.SizedRelativeOut | engine/assemble.c:1462-1470 | the same by the type of the operand |
| TemplateEmit.RegisterOut | engine/assemble.c:1399-1402 | the opcode plus the low bits of the register |
| TemplateEmit.FieldOut | engine/assemble.c:1486-1493 | the register in the middle field of a given byte |
| TemplateEmit.RegistersOut | engine/assemble.c:1713-1784 | two registers in a ModRM byte |
| TemplateEmit.AddressOut | engine/assemble.c:1713-1784 | a register and the bytes of a memory operand |
| TemplateEmit.DigitOut | engine/assemble.c:1713-1784 | a digit and a register in a ModRM byte |
| TemplateEmit.DigitAddressOut | engine/assemble.c:1713-1784 | a digit and the bytes of a memory operand |
| TemplateEmit.ConditionOut | engine/assemble.c:1640-1642 | a condition on top of free bits |
| TemplateEmit.LiteralOut | engine/assemble.c:1384-1392 | one to four bytes as they stand in the template |
| TemplateEmit.PrefixOut | engine/assemble.c:1647-1700 | the prefix bytes that templates demand |
| TemplateEmit.PrefixOrder | engine/assemble.c:1250-1361 | the prefixes of an instruction, byte by byte and in order |
| TemplateEmit.OldAccepted | engine/assemble.c:729-1235 | an instruction of the registers that 32-bit code has is accepted whenever its bytecodes can be measured |
| TemplateRead.ItemBack | disasm/disasm.c:521-1069 | for every bytecode: matching what was put out for it consumes exactly its bytes and gives back the register, immediate, relative target or address, if and only if the bytecode is readable with the operands, the scanned prefixes and the bytecodes before it |
| TemplateRead.ItemsLegal | disasm/disasm.c:521-1069 | the arguments that `ItemBack` takes for granted are those of every template |
| TemplateMatch.LiteralMatches | disasm/disasm.c:529-536 | which bytes a literal matches: itself only |
| TemplateMatch.RegisterMatches | disasm/disasm.c:544-556 | the opcode with one of eight registers added, and which one |
| TemplateMatch.FieldMatches | disasm/disasm.c:692-706 | any register between the outer fields given |
| TemplateMatch.ConditionMatches | disasm/disasm.c:964-972 | the opcode with one of sixteen conditions added, and which one |
| TemplateMatch.ModrmMatches | disasm/disasm.c:676-690 | the fields of a ModRM byte; a digit must be in the middle one |
| TemplateMatch.RegisterForm | disasm/disasm.c:280-477 | a ModRM byte with 3 on top is the register in its last bits |
| TemplateMatch.ImmediateReads | disasm/disasm.c:568-634 | the number that the bytes of an immediate spell, lowest first |
| TemplateMatch.SignedReads | disasm/disasm.c:563-665 | the signed number that the bytes of a sign-extended or relative operand stand for |
| TemplateMatch.SizedReads | disasm/disasm.c:581-665 | how many bytes an operand without a fixed size takes |
| TemplateBack.ScanLaid | disasm/disasm.c:1160-1318 | the scan takes exactly the prefixes of an instruction, its own and those that the template demands, if and only if no prefix or VEX, XOP or EVEX escape stands where its opcode should begin |
| TemplateBack.InsnRoundTrip | disasm/disasm.c:485-1126 | a whole instruction with any prefixes: the scan finds its own prefixes and the bytes that the template demands in front of the opcode, matching consumes exactly the rest, and every operand comes back modulo its width, relative ones against the end of the instruction, registers above 7 with LOCK put out for REX.R included |
| TemplateBack.MandatoryPrefix | disasm/disasm.c:1012-1017 | an SSE2 instruction with a demanded prefix byte meets the conditions of the round trip |
| TemplateEmit.RawTemplate | disasm/disasm.c:485-1126 | that instruction from its raw bytecode |
| TemplatePrefix.PrefixesBack | disasm/disasm.c:1077-1123 | the wait, repeat, lock and operand size prefixes shown, completed by the template again, are those assembled, if and only if they are not mixed up with prefixes that the template demands |
| TemplatePrefix.WantedPrefixes | disasm/disasm.c:916-1047 | for every bytecode that tests prefixes: which bytes must stand in front of the opcode, and which must not |
| TemplateScan.ScansPrefixes | engine/assemble.c:1250-1361 | the scan reads the prefix slots as what they say |
| TemplateScan.ScanSays | disasm/disasm.c:1160-1318 | what a run of prefix bytes says, whatever their order; of the repeat prefixes the last one counts |
| TemplateCode.Calcsize | engine/assemble.c:729-1235 | the length pass over raw bytecode computes length, prefixes and REX bits of the specification |
| TemplateCode.EmitPrefix | engine/assemble.c:1250-1361 | the prefix slots are emitted in order |
| TemplateCode.Gencode | engine/assemble.c:1363-1790 | the emission over raw bytecode puts out the specified bytes and advances both offsets by as many |
| TemplateCode.Assemble | engine/assemble.c:595-601 | both passes together: the number of bytes out is the number measured, as the assertion demands |
| TemplateCode.Matches | disasm/disasm.c:485-1126 | the matching loop over raw bytecode stores what the specification reads, with the length and the prefixes left over, or fails with it |
| TemplateCode.ScanPrefixes | disasm/disasm.c:1160-1318 | the prefix loop, in 32-bit mode: it gathers what the prefixes say, stops at the first byte that is none, and tells a VEX, XOP or EVEX prefix from an older instruction |
| FloatMultiply.Products | engine/floats.c:113-122 | the 36 partial products sum up to the product of the mantissas, and no accumulator exceeds 12 limbs' worth |
| FloatMultiply.Propagate | engine/floats.c:124-127 | carrying keeps the value and leaves 32-bit limbs, without overflow of 64 bits |
| FloatMultiply.Multiply | engine/floats.c:101-145 | the stored mantissa is the product shifted up by at most one bit and truncated to 192 bits; the result says which; normalised operands give a normalised result |
| FloatRound.ShiftRight | engine/floats.c:596-622 | shifting right divides by the power of two, for every positive shift |
| FloatRound.Round | engine/floats.c:432-496 | the kept bits are those of the argument, one more exactly when the mode goes up: to nearest with ties to even, or half a unit and more away from zero; the result says exactly when the first limb is zero after adding |
| FloatRound.AwayRounds | engine/floats.c:447-455 | rounding away from zero gives the next multiple of the unit if and only if the rest is zero or at least half a unit |
| FloatRound.Directions | engine/floats.c:479-493 | rounding up and down are toward zero or away from it as the sign says |
| FloatNearest.AwayFails | engine/floats.c:447-455 | in every format a number a quarter of a unit above one, rounded up, becomes one |
| FloatRound.ShiftByZero | engine/floats.c:596-622 | a shift by zero keeps the value if and only if the first limb is zero |
| FloatRound.RestFacts | engine/floats.c:432-437 | the half bit and the collected bits say where the rest lies against half a unit |
| FloatFormat.TableIsWellFormed | engine/floats.c:656-666 | all formats of the table fill their words |
| FloatIeee.TableParameters | engine/floats.c:656-666 | precision and bias of every format of the table, as in IEEE 754-2008 |
| FloatIeee.MagnitudeIsMeaning | engine/floats.c:624-666 | the magnitude of a word is the number that section 3.4 of IEEE 754-2008 gives it |
| FloatIeee.Specials | engine/floats.c:840-865 | infinity and the quiet NaN by their exponent and fraction fields |
| FloatIeee.OneIs | engine/floats.c:656-666 | the words of one in the single, double and extended formats |
| FloatIeee.LowestFirst | engine/floats.c:910-911 | every stored byte is its digit of the word in base 256 |
| FloatPack.FloatConst | engine/floats.c:725-914 | the stored bytes, little-endian, are the sign and the rounded magnitude: normal, subnormal, infinity, zero or a quiet NaN |
| FloatPack.PackNormal | engine/floats.c:867-893 | a carry of the rounding goes into the exponent, and from the last one to infinity |
| FloatPack.PackDenormal | engine/floats.c:833-865 | a subnormal number rounds up into the normal range or down to zero as its bits say |
| FloatPack.Emit | engine/floats.c:910-911 | the bytes come out last first |
| FloatNearest.CanonicalIsLayout | engine/floats.c:624-666 | every finite encoding is the place of its magnitude in the order of magnitudes |
| FloatNearest.NextMagnitude | engine/floats.c:624-666 | counting the word up by one goes to the next magnitude, across exponents |
| FloatNearest.PackedNearest | engine/floats.c:803-911 | the packed word is the nearest to the number, ties to even, among all words of the format, if and only if `RoundsRight`: the exponent is not `expmax` (or the significand rounds to a power of two) and no tie lost bits |
| FloatNearest.ExpmaxFails | engine/floats.c:810-811 | in every format 1.5 times 2 to the `expmax` is packed wrongly |
| FloatNearest.TieIsLost | engine/floats.c:869-870 | in every format a mantissa that uses its last bit can be rounded to the wrong side |
| FloatNearest.UnitsOfValue | engine/floats.c:803-911 | the fraction used above is the number in units of the smallest subnormal number |
| FloatBinary.ReadExponent | engine/floats.c:152-190 | the exponent is the exact value cut at the limit, although the loop cuts at every digit |
| FloatDigits.ExponentWritten | engine/floats.c:152-190 | an exponent is the signed number that its digits spell, cut at the limit |
| FloatDigits.BinaryText | engine/floats.c:510-591 | the digits around the point of a binary, octal or hexadecimal constant spell its significand, and the exponent counts from behind the last one |
| FloatDigits.DecimalText | engine/floats.c:197-265 | the same for decimal constants |
| FloatBinary.HexvalExact | engine/floats.c:498-507 | a character reads as the hexadecimal digit it is, and any other as none, if and only if it is not `@` or the backquote |
| FloatBinary.NextDigit | engine/floats.c:549-559 | a digit goes below the bits in use, across two limbs when needed; what does not fit is truncated |
| FloatBinary.FlconvertBin | engine/floats.c:510-591 | a text is accepted exactly when it reads as a number; the mantissa holds the first 192 bits of its significand and the exponent places them |
| FloatText.BinaryConst | engine/floats.c:725-914 | text to stored word for binary, octal and hexadecimal constants |
| FloatText.BinaryConstantNearest | engine/floats.c:725-914 | if the significand fits in 192 bits, the word is nearest to the number written exactly when `RoundsRight` |
| FloatDecimal.DoubleDigits | engine/floats.c:299-309 | one pass doubles the decimal fraction; the carry is its integer part |
| FloatDecimal.DigitsToBits | engine/floats.c:280-325 | the loop ends with the fraction truncated to 192 bits behind its leading zero bits, which the exponent counts |
| FloatConvert.ReadDigits | engine/floats.c:197-265 | the buffer holds the first 52 significant digits, and the power of ten places them |
| FloatPower.TruncatedProduct | engine/floats.c:101-145 | a product of normalised mantissas is at most one unit of 2^-191 below the exact one |
| FloatPower.ScaleByFives | engine/floats.c:338-384 | square and multiply: n factors of five cost at most 2 n units of relative error |
| FloatConvert.Flconvert | engine/floats.c:197-394 | mantissa and exponent are within (1 + 2 n) 2^-191 of the number that the first 52 digits stand for, n being the size of the power of ten |
| FloatConvert.KeptIsExact | engine/floats.c:197-394 | with at most 52 digits that number is the one written |
| FloatConvert.KeptIsClose | engine/floats.c:197-265 | with more digits it is below the number written by less than 10^-51 of it |
| FloatBoundary.ApproximationPacked | engine/floats.c:803-911 | if mantissa and exponent approximate a number that is farther than the error from every rounding boundary, the packed word is the nearest to the number itself exactly when `RoundsRight` |
| FloatBoundary.TieIsNear | engine/floats.c:869-870 | a tie that is misjudged lies above a rounding boundary by no more than the bits dropped |
| FloatBoundary.FarIsNearest | engine/floats.c:803-911 | a number farther from every boundary than the error and twice the dropped part gets its nearest word, unless the exponent is `expmax` |
| FloatWord.DecimalNearest | engine/floats.c:725-914 | both for decimal constants, with the error of their conversion |
| FloatWord.DecimalConst | engine/floats.c:725-914 | the stored word of a decimal constant packs the approximation, and is the nearest to the number under those conditions |
| RbTree.RotateLeft | nasmlib/rbtree.c:120-137 | keeps the tree with its threads and the order of the nodes |
| RbTree.RotateRight | nasmlib/rbtree.c:139-156 | keeps the tree with its threads and the order of the nodes |
| RbTree.ColorFlip | nasmlib/rbtree.c:158-163 | keeps the tree |
| RbTree.InsertInto | nasmlib/rbtree.c:182-217 | below any node, whatever the colours: the tree with its threads, the same outer neighbours, and exactly the new node more, at its place in the order |
| RbTree.Insert | nasmlib/rbtree.c:168-177 | inserting into any well-formed tree gives a well-formed one with exactly the new node more |
| RbTree.InsertedSorted | nasmlib/rbtree.c:182-217 | keys stay in order, and one node is added |
| RbTree.InsertedPosition | nasmlib/rbtree.c:182-217 | the new node stands behind all keys that are not greater |
| RbTree.ThreadsLeadToNeighbours | nasmlib/rbtree.c:45-48 | every thread leads to the neighbour in order, null only at the ends |
| RbTree.Search | nasmlib/rbtree.c:69-88 | the node with the greatest key not above the given one, or null if all are above |
| RbTree.First | nasmlib/rbtree.c:219-228 | the first node |
| RbTree.Last | nasmlib/rbtree.c:230-239 | the last node |
| RbTree.Next | nasmlib/rbtree.c:251-259 | the following node, null after the last |
| RbTree.Prev | nasmlib/rbtree.c:241-249 | the preceding node, null before the first |
| RbTree.Enumerate | nasmlib/rbtree.c:219-259 | going on from the first node visits every node once, in order, equal keys included |
| HashProbe.ProbeReaches | nasmlib/hashtbl.c:48-55 | the odd step reaches every slot of a table whose size is a power of two, for every hash |
| HashProbe.OddInverse | nasmlib/hashtbl.c:54 | an odd number has an inverse modulo every power of two |
| HashTable.Filled | nasmlib/hashtbl.c:184-191 | filling the free slot at the end of a probe chain keeps every key where its search finds it |
| HashTable.NotThere | nasmlib/hashtbl.c:85-93 | a search that meets a free slot has passed the slot of every entry with that hash |
| HashTable.Table.Find | nasmlib/hashtbl.c:75-105 | terminates; finds exactly the keys of the map, with their data |
| HashTable.Table.Add | nasmlib/hashtbl.c:173-228 | adds the binding to the map, keeps at least half of the table free, and returns the slot of the new datum even after an expansion |
| HashTable.Table.Expand | nasmlib/hashtbl.c:193-222 | rehashing into twice the size keeps the map and follows the new entry |
| HashTable.Table.Run | nasmlib/hashtbl.c:75-228 | any run of searches and insertions gives the map of the first binding of every key, for every hash function |
| HashTable.Table.Iterate | nasmlib/hashtbl.c:235-252 | the next entry in slot order, or the end |
| HashTable.Table.ForEach | nasmlib/hashtbl.c:235-252 | a loop over the iterator yields every binding once and nothing else |
| Primes.Sqrti | engine/tmplt.c:154-160 | the integer square root |
| Primes.IsPrime | engine/tmplt.c:162-176 | primality, with one and zero counted in |
| Primes.GreatestPrime | engine/tmplt.c:178-186 | the greatest prime up to the limit |
| Combinations.ProductAt | engine/tmplt.c:188-237 | every choice of leaves stands in the enumeration, at its lexicographic rank |
| Combinations.RankUnique | engine/tmplt.c:188-237 | every place of the enumeration belongs to one choice only |
| Combinations.RankOrder | engine/tmplt.c:188-237 | a choice that is smaller in the first index that differs comes earlier |
| Combinations.ProductCount | engine/tmplt.c:261-267 | the number of combinations is the product of the leaf numbers |
| Traverse.SampleAt | engine/tmplt.c:207 | stepping runs the block ceil(N / step) times, on combinations 0, step, 2 step and so on |
| Traverse.LeafNum | engine/tmplt.c:239-251 | counts the leaves |
| TreePaths.LeavesAppend | engine/tmplt.c:198-251 | the leaves of sub-trees side by side are those of the first ones, then those of the others |
| TreePaths.OneSub | engine/tmplt.c:198-251 | a branch with one sub-tree has its leaves |
| TreePaths.LeafAt | engine/tmplt.c:198-251 | every path from the root to a value has its place among the leaves |
| TreePaths.PathAt | engine/tmplt.c:198-251 | every place belongs to a path |
| TreePaths.PlaceOrder | engine/tmplt.c:198-251 | places follow the lexicographic order of the paths |
| TreePaths.EveryCombination | engine/tmplt.c:188-237 | for every way to take one path per slot the enumeration has the values taken, at the rank of their places |
| TreePaths.NoOtherCombination | engine/tmplt.c:188-237 | and nothing else |
| Traverse.Traversal.Visit | engine/tmplt.c:188-237 | the recursion counts every combination once in lexicographic order, runs the block on the sample with the right values stacked, and puts the stacks back |
| Traverse.Traversal.Walk | engine/tmplt.c:253-280 | the block runs for all of fewer than 8192 combinations, and else for at least 4096 that are a prime apart |
| MemText.WrittenOffset | engine/operand.c:271-301 | the text of the operand, with its registers set up, addresses the offset drawn |
| MemAddr.RandomMemAddr | engine/mem.c:20-47 | section and scale by the numbers drawn; for every random number and mode the operand stays 128 bytes inside its section, and is a multiple of 128 for SSE |
| MemAddr.FreeRegister | engine/operand.c:254-256 | the draw ends with a register that is not locked |
| MemAddr.RandomModrm | engine/operand.c:229-305 | the mode is the one of the number drawn; base and index are two registers that were free, as the mode asks for, and the locks are as before |
| MemAddr.Locks.Unlock | stat/x86pg.c:185-192 | frees the registers of one case only |
| Utf8.AcceptsExactly | engine/strfunc.c:46-111 | accepts exactly the texts that encode characters by section 3 of RFC 3629, and reads them as those characters |
| Utf8.Decode16Text16 | engine/strfunc.c:70-72 | the output decodes by section 2.2 of RFC 2781 to the same characters |
| Utf8.OutputDecodes | engine/strfunc.c:46-111 | from UTF-8 through the transform and back by RFC 2781 is the identity on characters |
| Utf8.Examples | engine/strfunc.c:46-111 | the examples of section 7 of RFC 3629 and section 4 of RFC 2781 |
| Utf8.Utf8To16le | engine/strfunc.c:46-111 | counts, and with a buffer writes, exactly the UTF-16 text, or reports a malformed input |
| Utf8.StringTransform | engine/strfunc.c:336-359 | the writing pass fills exactly the buffer that the sizing pass asked for |
| ReadNum.Readnum | nasmlib/readnum.c:68-177 | accepts exactly the numerals, returns sign times value modulo 2^64, and warns if and only if the exact value is at least 2^64 |
| ReadNum.Overflow | nasmlib/readnum.c:132-158 | the test against the limit before a digit tells exactly whether the value reaches 2^64 |
| ReadNumText.ReadsNumeral | nasmlib/readnum.c:68-177 | blanks, a sign, a numeral in any of its forms and anything that cannot belong to it read as the sign and the sum of the digits times the powers of their places |
| ReadNumText.ValueWritten | nasmlib/readnum.c:132-158 | digits in small or capital letters with underscores have the value that they spell |
| ReadNum.LetterExactly | nasmlib/readnum.c:48-66 | which letters stand for which radix |
| ReadNum.DigitsHaveValue | nasmlib/readnum.c:132-158 | the digit loop accepts exactly underscores and digits of the radix |
| ReadNum.PrefixForm | nasmlib/readnum.c:108-130 | digits of a radix behind 0 and any letter of that radix are read in it, whatever letters they end with |
| ReadNum.DollarForm | nasmlib/readnum.c:108-130 | hexadecimal digits behind $ are read in radix 16 |
| ReadNum.SuffixForm | nasmlib/readnum.c:108-130 | digits of a radix in front of any letter of that radix are read in it, whatever they start with |
| ReadNum.BothForms | nasmlib/readnum.c:108-130 | with radix letters at both ends a numeral is accepted if and only if one says hexadecimal and the other is b or d, which is then a digit |
| ReadNum.DecimalForm | nasmlib/readnum.c:108-130 | decimal digits alone are read in radix 10 |

## Left out

- Control flow: `jmp` or `jcc` as a `transfer` block, nested blocks, and what operand parsing does after a -1 result; block bodies are straight-line lines, which are taken not to touch ecx. A loop count of 0 runs 2^32 times, as on the machine.
- ControlRun.GenerationOrder: excludes flag-testing loops, whose number of rounds depends on the flags; ControlRun.WholeRun covers them.
- EaRoundTrip.AddressRoundTrip: 16- and 32-bit addressing only; 64-bit addressing, VSIB, VEX and EVEX forms are not part of this model. The flags that ask for a SIB byte or a split are taken from the operand, not from the template.
- ExprSpec.EvalDenotes: numbers, registers, `+`, `-` and `*` (parentheses are commented out in the source); division, bitwise operators, comparisons, symbols, segments and unknown values are not part of this model.
- TemplateLength.LengthsAgree: legacy bytecode in 32-bit mode; reserved space, segment references, VEX, EVEX and VSIB codes are not part of this model.
- TemplateBack.InsnRoundTrip: for templates whose prefix bytes come before everything else that they put out. A template whose opcode is itself a prefix byte, as that of FWAIT, is not found again: TemplateBack.ScanLaid says that the scan ends in front of the opcode if and only if it is none.
- TemplatePrefix.PrefixesBack: an address size prefix is not shown again when the template has operands, as in the code; names for one prefix byte (XACQUIRE, BND, REPE) are not told apart.
- TemplateCode.Matches: the template flags that exclude a mode, VEX and EVEX codes, and the size attributes of operands are not part of this model.
- EaCode.ProcessEa: 64-bit, VSIB, EVEX and RIP-relative forms are not part of this model; nor are they of EaCode.DoEa and EaCode.AddAsp.
- ExprCode.Evaluator.Expr5: division and remainder are not part of this model; nor are the other operators and tokens of ExprCode.Evaluator.Expr6.
- Template selection by both the assembler and the disassembler, which depends on generated tables.
- FloatPack.FloatConst: special tokens, packed decimal, the dispatch on the radix prefix, and warnings.
- FloatConvert.Flconvert: texts longer than a million characters, whose 32-bit exponents could overflow.
- Red-black balance: the colour test for two red children is true when either child is red, so equal black height is not kept.
- HashTable: keys are byte sequences compared as such; the case-insensitive variant, the identity of key pointers and freeing are not part of this model.
- MemAddr.FreeRegister: that the draws end rests on every register coming up again and again in the random numbers, which is a precondition.
- MemAddr.RandomMemAddr: for sections of at least 136 bytes; a smaller one would ask for a random number below zero or one.
- UTF-16BE and UTF-32 output.
- Random choice among selection blocks, text formatting of operands, XML templates, object output and diagnostics.
