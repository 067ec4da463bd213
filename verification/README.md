# DTrace: compiler, linker, aggregation and USDT, modelled in Dafny

DTrace for Linux compiles clauses of the D language to BPF programs, links them
with a library of BPF functions, attaches them to probes, gathers what they
aggregate on each CPU, and learns about the probes of user programs from a
daemon. This project models the parts of it where most of the reasoning is, and
proves what they are for:

- **Compilation** (`Expr`, `Registers`, `Ir`, `CodeGen`, `Asm`, `Clause`; proofs
  in `Bpf`, `Memory`, `Window`, `Labels`, `Compile`, `Spill`, `Execution`,
  `Correct`, `Conversions`, `Word`, `WordFacts`, `BitFacts`). Integer expressions, statements and predicates are translated
  with a register allocator that spills, to a list of labelled instructions, to
  an array of instructions with relative jumps. `Clause.ProgramLeaves` says, for every
  clause that compiles and every state of the machine that represents the variables,
  what the array leaves behind, and `Clause.ProgramCorrect` that this is what the
  clause means. `Correct` says exactly where the code generator does not do that, and
  `Casts` and `Conversions` where the meaning is not that of ISO C.
- **Linking** (`Linker`, `Relink`). Layout of the functions that are reached,
  copying, relocation. `Relink.LinksLand` says that after any number of links,
  each on top of the others, calls land on the code of the function they name, those
  of the ERROR program back to itself having been dropped, and `Relink.ReadyCopied`
  that linked functions are copied unchanged.
- **Aggregation** (`Aggregate`, `Quantize`, `Llquantize`, `Stddev`, `Joined`).
  Cells on every CPU with generations, snapshots that merge them, the bins, the
  sums, the joined tables. `Aggregate.SnapshotShows` says that a snapshot shows the
  sum, the greatest or the least of all updates since the last clear.
- **Variables and probes** (`Dvars`, `BitField`, `Reentry`). Thread-local and
  associative variables as one map with default zero; fields of bits; that
  one program at a time uses the state of a CPU, and what it finds there again after
  faults and dependent probes.
- **Daemon and hash table** (`Chunks`, `Usdt`, `Notes`, `ProbeFile`, `Delivery`,
  `Htab`, `HashValue`). The exchange that fetches DOF
  from a process in pieces, the stream from parser to daemon to files and back from
  these (`Delivery.Pipeline`), and the hash table that both use, with deletion while
  iterating.

Code that works by changing things is a class or a method with loops, proved
against functions about which the properties are proved.

What the code does is followed where it differs from what it seems to be meant
to do. Each of these has a concrete input or an exact condition in the project:

- A comparison nested so deeply that its second register is spilled loses the
  spilled value if it holds, and a `?:` nested so deeply that its register is
  spilled loses its result or the spilled value (`Correct.CompareUnderSpill`,
  `Correct.CondUnderSpill`, both exact; `Correct.TooDeepFails` has expressions over
  variables that mean 15 and 11 and compute 20 and 6). `Execution.GenLeaves` says what
  the code of every expression leaves behind, `Correct.GenExact` that it is right
  exactly if that agrees with the meaning, and `Correct.AgreeAlways` that it always
  does with comparisons at most at depth six and `?:` at most at depth seven of values
  held (`SpillSafe`).
- The remainder of a signed division is negated if the signs differ, which is not
  C's remainder for a negative divisor (`WordFacts.RemainderExact`,
  `WordFacts.RemainderFlipped`).
- Whether a cast needs code is decided by the types alone, although arithmetic has
  been done in 64 bits and the operand may be outside its type
  (`Casts.OperatorExact`, `Casts.CastLost`).
- Operands are compared as 64-bit words without conversion to a common type, and types
  narrower than int are not promoted, so that comparing a negative number with an
  unsigned one of at most 32 bits may differ from C (`Conversions.CompareAlways`,
  `Conversions.CompareLost`).
- The value of an assignment, plain or compound, is the operand's as it is, not the
  one that the variable's type can hold (`Casts.AssignAlways`,
  `Casts.AssignOpAlways`, `Casts.AssignLost`).
- A field of bits is read and written as the least word with room for its bits, so one
  that begins late in a byte may end outside that word (`BitField.FieldExact`,
  `BitField.SevenAtFour`).
- A call back to the program that is being linked uses the address that its
  identifier had before (`Linker.CallsToSelf`). The one program that is used again
  when linked is the ERROR program, whose calls to itself become no-ops
  (`Relink.CutLands`).
- A fault in a clause of the ERROR probe saves the arguments of ERROR over those of the
  probe that had faulted, which are lost (`Reentry.ErrorRestores`,
  `Reentry.ArgumentsLost`).
- Data cleared before the first snapshot has seen it comes back with that snapshot
  (`Aggregate.ClearedComesBack`, `Aggregate.SnapshotOutdated`).
- The two words of the square sum of stddev() are merged without a carry
  (`Stddev.MergeExact`, `Stddev.CarryLost`).
- In a joined table, the zeroes of a variable without any entry may be described as
  those of another variable (`Joined.OwnZeroes`, `Joined.OthersZeroes`).
- A piece of DOF shorter than a DOF header is refused, even if it is the last
  (`Chunks.Exchange`, `Chunks.ShortPiece`).
- Threads whose numbers agree in the low 31 bits share thread-local variables
  (`Dvars.TlsKeysMeet`).
- The offset of a note takes part in the hash value of the probe made from it, and not
  in that of the look-up. From 35 probes on, notes of one probe may end up as two
  probes of the same names, and the parsed files are then not written
  (`Notes.GroupedOne`, `Notes.FewMet`, `Notes.TwoProbes`, `Delivery.Pipeline`).
- A probe with translated arguments and no native ones is written without argument
  records, and its file is then refused when read (`ProbeFile.FileTells`).
- A stream from DOF with an invalid probe is refused as a whole, because the error
  record takes the place of records that the provider has announced
  (`Usdt.ReadDofStream`, `Usdt.BothRefused`).

`dfyconfig.toml` lists all files for the verifier.

## Model

| member | source | states |
|---|---|---|
| `Registers.RegSet.Alloc` | libdtrace/dt_regset.c:60-81 | With d values held, allocation d+1 always gets the register fixed for that depth: the first eight are free registers, the next eight are spilled first, emitting the store to the spill slot; with all sixteen taken it returns 0 and emits and changes nothing. |
| `Registers.RegSet.Free` | libdtrace/dt_regset.c:103-116 | Freeing the latest allocation brings the set back to the depth before it and reloads the value that had been spilled, if there was one. |
| `Ir.IrList.Append` | libdtrace/dt_as.c:37-49 | The list grows by the node, and its length stays the number of nodes that become instructions: labelled no-ops do not count. |
| `Ir.IrList.FreshLabel` | libdtrace/dt_as.c:51-55 | Every label handed out is larger than all labels in the list so far. |
| `Ir.IndexOnto` | libdtrace/dt_as.c:263-330 | Every instruction slot up to the counted length comes from a node of the list, so the buffer has no gaps. |
| `Asm.FirstPass` | libdtrace/dt_as.c:262-330 | After the pass every emitted node is in the buffer at its index and every label stands for the index of its declaration; it fails exactly if some node asks for a relocation that its instruction cannot have. |
| `Asm.SecondPass` | libdtrace/dt_as.c:333-369 | Every branch ends up with the 16-bit displacement from the next instruction to the index of its label, and no other instruction changes. |
| `Asm.RelocPass` | libdtrace/dt_as.c:435-545 | The relocation table that is built equals the table defined over the nodes, in instruction order, with no entry missing or extra. |
| `Asm.Assemble` | libdtrace/dt_as.c:197-545 | The passes together: the result is the assembled form of the list with its relocation table, and there is one exactly if no node has an impossible relocation. |
| `Asm.RelocsAscending` | libdtrace/dt_as.c:435-545 | Relocation offsets strictly ascend and lie inside the program. |
| `Asm.RelocNode` | libdtrace/dt_as.c:435-545 | Every relocation record has the name of an external node, and at its offset the assembled code has that node's instruction, which is one for the kind of the record. |
| `Asm.RelocOf` | libdtrace/dt_as.c:435-545 | Every external node has such a record. |
| `Asm.StepMatches` | libdtrace/dt_as.c:262-369 | A step of the labelled list is no step of the array at a dropped label, and exactly one step of the array everywhere else. |
| `Asm.RunMatches` | libdtrace/dt_as.c:262-369 | Every run of the labelled list is matched by a run of the assembled array: label resolution preserves meaning. |
| `Asm.RunMatchesBack` | libdtrace/dt_as.c:262-369 | And every run of the assembled array comes from a run of the labelled list. |
| `Asm.JumpsStayInside` | libdtrace/dt_as.c:333-369 | Branches of the assembled array land inside it. |
| `CodeGen.Generator.GenNode` | libdtrace/dt_cg.c:7106-7630 | For every integer expression the generator appends the code that the specification function Gen defines, hands back the register of the depth it started at with every other register as before, and gives up exactly if Gen does. |
| `CodeGen.Generator.Arithmetic` | libdtrace/dt_cg.c:4402-4531 | Once the left operand is in its register: the code of the right operand, the plain or the sign-corrected operation with the test for a zero divisor, and the release of the second register. |
| `CodeGen.Generator.CompareOp` | libdtrace/dt_cg.c:4661-4741 | The code of a comparison, with the second register released in the middle of it, as the source does. |
| `CodeGen.Generator.Ternary` | libdtrace/dt_cg.c:4754-4856 | The code of ?:, whose left arm ends in a placeholder that is patched once the register of the right arm is known. |
| `CodeGen.Generator.LogicalAnd` | libdtrace/dt_cg.c:4858-4880 | The short-circuit code of &&. |
| `CodeGen.Generator.LogicalXor` | libdtrace/dt_cg.c:4882-4904 | The code of ^^, both operands reduced to 0 or 1. |
| `CodeGen.Generator.LogicalOr` | libdtrace/dt_cg.c:4906-4930 | The short-circuit code of the logical or. |
| `CodeGen.Generator.LogicalNot` | libdtrace/dt_cg.c:4932-4950 | The code of !. |
| `CodeGen.Generator.Accumulate` | libdtrace/dt_cg.c:7131-7181 | Compound assignments: load, operate, store back. |
| `CodeGen.Generator.LoadVar` | libdtrace/dt_cg.c:3407-3453 | The load of a global or clause-local scalar and its promotion. |
| `CodeGen.Generator.StoreVar` | libdtrace/dt_cg.c:4275-4400 | The store of a global or clause-local scalar, which leaves the value in its register and needs one register more. |
| `CodeGen.GenExactly` | libdtrace/dt_cg.c:7106-7630 | Code is generated for an expression at depth d exactly if d plus the number of registers the expression needs is at most sixteen, where the need is a recursion on the expression alone. |
| `Window.RunAlloc` | libdtrace/dt_cg.c:1468-1474 | Running the code of an allocation makes room for one more value and loses none of those held in registers and spill slots. |
| `Window.RunFree` | libdtrace/dt_cg.c:1476-1482 | Running the code of a release brings the value below back and changes no other register. |
| `Window.RunAccess` | libdtrace/dt_cg.c:127-148 | The code leaves the base address of the storage of globals or of clause-locals. |
| `Window.RunSetX` | libdtrace/dt_cg.c:3160-3174 | A 64-bit immediate in two slots sets exactly that register to that word. |
| `Window.StoreVariable` | libdtrace/dt_cg.c:4275-4400 | A store to a variable changes the value of that variable and of no other, and no spill slot. |
| `WordFacts.ShiftsConvert` | libdtrace/dt_cg.c:3831-3880 | The two shifts of a narrowing cast compute the conversion to the target type, for every word. |
| `WordFacts.ShiftsExtend` | libdtrace/dt_cg.c:3206-3219 | Promotion after a load yields the value of the variable, sign-extended or zero-extended by its type. |
| `WordFacts.DivisionBySigns` | libdtrace/dt_cg.c:4430-4485 | The unsigned operation on magnitudes, negated if the signs differ, is D's signed division and remainder, for all words. |
| `WordFacts.RemainderExact` | libdtrace/dt_cg.c:4430-4485 | D's signed remainder equals the C remainder exactly if the divisor is positive or divides the dividend. |
| `WordFacts.RemainderFlipped` | libdtrace/dt_cg.c:4430-4485 | 7 and -2: C leaves 1 and D -1. |
| `BitFacts.BitsAt` | libdtrace/dt_cg.c:7198-7208 | Every bit of the result of &, the bitwise or and ^ is what the operator says of that bit of the operands. |
| `Conversions.SignedExactly` | libdtrace/dt_cg.c:4641-4659 | A comparison is signed exactly if both operand types are signed or the wider one is. |
| `Conversions.ComparesAsC` | libdtrace/dt_cg.c:4641-4741 | For operands that have their types, the comparison as compiled is C's comparison after the usual arithmetic conversions if no operand is negative, or the types have the same sign, or the signed one is wider, or one has 64 bits, or both are narrower than int and the operator is == or !=. |
| `Conversions.CompareMeans` | libdtrace/dt_cg.c:4641-4741 | So for these a comparison of any two expressions means C's comparison of their values. |
| `Conversions.CompareAlways` | libdtrace/dt_cg.c:4641-4741 | For two variables, whatever they hold, exactly for these types and operators. |
| `Conversions.CompareLost` | libdtrace/dt_cg.c:4641-4741 | A 32-bit -1 and the unsigned 0xffffffff are equal in C and not as compiled; an 8-bit -1 is less than an unsigned 8-bit 0 in C and not as compiled. |
| `Compile.RunDivision` | libdtrace/dt_cg.c:4430-4485 | Running the sign-corrected sequence with its inner branches leaves quotient or remainder on top of the values held, or faults exactly for a zero divisor. |
| `Compile.RunProbeError` | libdtrace/dt_cg.c:1348-1386 | Running the fault sequence ends the program with the fault recorded and memory as it was. |
| `Compile.ProbeErrorCall` | libdtrace/dt_cg.c:1348-1386 | dt_probe_error() is called with the context, the number of the calling instruction once PC is linked, the fault and the value 0 in its four argument registers. |
| `Execution.GenLeaves` | libdtrace/dt_cg.c:7106-7630 | For every integer expression that compiles, spilled comparisons and ?: included, in every program that contains its code, at every depth, for all variable values and whatever values are held: running the code leaves behind exactly the values and variables that the stack function Exec gives, or stops with a fault when it does. |
| `Correct.GenExact` | libdtrace/dt_cg.c:7106-7630 | For every such expression, depth and state the code does what the expression means exactly if Exec agrees with evaluation. |
| `Correct.AgreeAlways` | libdtrace/dt_cg.c:7106-7630 | They agree for all variables and values held if no comparison or ?: is at a depth where it spills. |
| `Correct.GenCorrect` | libdtrace/dt_cg.c:7106-7630 | So for these running the code leaves the value of the expression on top of the values held, keeps those, leaves the variables as the assignments in it say, and stops with a fault exactly if evaluation divides by zero. |
| `Correct.CompareUnderSpill` | libdtrace/dt_cg.c:4661-4741 | For every comparison so deep that its second register is spilled: what the code leaves behind, and that this is the meaning of the expression exactly if the comparison is false or the lost value happens to equal the right operand. |
| `Correct.CondUnderSpill` | libdtrace/dt_cg.c:4754-4856 | For every ?: so deep that its register is spilled: with a true condition the spilled value replaces the result, with a false one zero replaces the spilled value; right exactly if those values coincide. |
| `Correct.NestLeaves` | libdtrace/dt_cg.c:4402-4531 | Sums of any length around an expression add up whatever its code has left on the stack. |
| `Correct.TooDeepCompiles` | libdtrace/dt_cg.c:4661-4856 | Both of the following expressions compile. |
| `Correct.TooDeepFails` | libdtrace/dt_cg.c:4661-4856 | Two expressions over variables that hold 5: one with a ?: means 15 and computes 20, one with a comparison means 11 and computes 6. |
| `Spill.Clobber` | libdtrace/dt_regset.c:103-116 | Releasing a spilled register without reloading it replaces the value below by the one on top. |
| `Spill.Shadow` | libdtrace/dt_regset.c:103-116 | Reloading over the top value replaces it by the spilled one. |
| `Casts.CastsExact` | libdtrace/dt_cg.c:3831-3880 | For every expression in which each cast that emits no code, and each assignment, has an operand that stays in its type, evaluation as compiled equals evaluation with a conversion at every cast and assignment. |
| `Casts.RangedFits` | libdtrace/dt_cg.c:3831-3880 | The static test behind it is sound: an expression that passes has a value of its type for all variables. |
| `Casts.OperatorExact` | libdtrace/dt_cg.c:3831-3880 | For each operator and type, with two variables as operands: the cast of the operation to its own type is a conversion whatever they hold exactly if the type has 64 bits or the operator keeps values in the type. |
| `Casts.UnaryExact` | libdtrace/dt_cg.c:3831-3880 | Complement keeps a narrow type exactly if it is signed, and negation never does. |
| `Casts.CastLost` | libdtrace/dt_cg.c:3831-3880 | Variables that hold 0xffffffff and 1: the cast of their sum to 32 unsigned bits yields 2 to the 32 where 0 is intended. |
| `Casts.AssignAlways` | libdtrace/dt_cg.c:7124-7129 | The value of an assignment between variables is the one their types intend, whatever they hold, exactly if a cast between the types would need no code. |
| `Casts.AssignOpAlways` | libdtrace/dt_cg.c:7131-7181 | The same for compound assignments: exactly for the operators and types that keep the variable's type. |
| `Casts.AssignLost` | libdtrace/dt_cg.c:7124-7181 | 256 assigned to an unsigned byte has the value 256 where 0 is intended, and 0xffffffff += 1 on 32 unsigned bits 2 to the 32. |
| `Casts.GenIntended` | libdtrace/dt_cg.c:3831-3880 | So the code of an expression with such casts computes the intended value. |
| `Labels.GenClosed` | libdtrace/dt_cg.c:4402-4950 | The code of every expression declares only labels of its own range, each once, and jumps only to these. |
| `Clause.ClauseExactly` | libdtrace/dt_cg.c:8828-8961 | A clause compiles exactly if no predicate or statement of it needs more than sixteen registers. |
| `Clause.ClauseClosed` | libdtrace/dt_cg.c:8828-8961 | The program of a whole clause declares each label once and jumps only to declared ones. |
| `Clause.ClosedAssemblable` | libdtrace/dt_cg.c:8828-8961 | Code with such labels is fit for the assembler. |
| `Clause.ClauseLeaves` | libdtrace/dt_cg.c:8828-8961 | For every clause that compiles, spilling or not: from every state that represents the variables its program stops and leaves the variables as the stack functions over its predicate and statements say. |
| `Clause.ProgramLeaves` | libdtrace/dt_cg.c:8828-8961 | The same for the assembled program: it stops, and every run that has stopped left that. |
| `Clause.ClauseRuns` | libdtrace/dt_cg.c:8828-8961 | From every state that represents the variables, the program of a clause stops, with the variables as the predicate and the statements mean, and with a fault exactly if evaluating them divides by zero. For clauses without a comparison or ?: that spills. |
| `Clause.ProgramCorrect` | libdtrace/dt_cg.c:8828-8961 | The same for the assembled program: it stops, and every run that has stopped did what the clause means. From source clause to instruction array. |
| `Clause.TranslateStmts` | libdtrace/dt_cg.c:8828-8961 | The statements one after the other, starting and ending with all registers free. |
| `Clause.TranslatePred` | libdtrace/dt_cg.c:1142-1170 | The predicate and the exit if it is zero. |
| `Clause.Translate` | libdtrace/dt_cg.c:8828-8961 | The generator run over predicate, statements and epilogue produces the specified program, or none exactly if the specification has none. |
| `Clause.CompileClause` | libdtrace/dt_cg.c:8828-8961 | Generator and assembler together: only running out of registers stops them, as the assembler never refuses what the generator produces. |
| `Linker.LayoutExact` | libdtrace/dt_cc.c:887-930 | Layout succeeds exactly if every function that is called, directly or not, is defined, and then lays out exactly those. |
| `Linker.DepsLaid` | libdtrace/dt_cc.c:887-930 | Every function is laid out at most once, and the copies tile the program without gap or overlap. |
| `Linker.DepsSound` | libdtrace/dt_cc.c:887-930 | Only functions that are called, directly or not, are laid out. |
| `Linker.DepsFails` | libdtrace/dt_cc.c:887-930 | A failure is due to a function that is called and not defined. |
| `Linker.DepsClosed` | libdtrace/dt_cc.c:887-930 | What is laid out is closed under calls. |
| `Linker.Link.LayOut` | libdtrace/dt_cc.c:887-930 | The recursive pass computes that layout: addresses, sizes, number of relocations, or failure exactly if there is none. |
| `Linker.Link.Construct` | libdtrace/dt_cc.c:946-1261 | The second pass copies code and relocation records of the function and all its dependencies to the places the first pass has planned, and writes nothing else. |
| `Linker.Link.Dependencies` | libdtrace/dt_cc.c:1019-1256 | The loop over the records of one function, with the dependencies following in the order of the plan. |
| `Linker.CopyRecords` | libdtrace/dt_cc.c:994-1017 | The records are copied with their offsets moved and their targets resolved. |
| `Linker.Resolve` | libdtrace/dt_cc.c:1263-1304 | The final pass over the records equals their effects applied in order. |
| `Linker.PatchesKeep` | libdtrace/dt_cc.c:1263-1304 | Instructions without a record stay as they are. |
| `Linker.PatchesSet` | libdtrace/dt_cc.c:1263-1304 | Every record has its effect, whatever records there are beside it. |
| `Linker.ImageSound` | libdtrace/dt_cc.c:1306-1411 | Every record of the linked program is for an instruction in it that can take it. |
| `Linker.LinkProgram` | libdtrace/dt_cc.c:1306-1411 | Linking succeeds exactly if the layout does; the result is the image with all records applied, and all identifiers are left without address. |
| `Linker.CopyKept` | libdtrace/dt_cc.c:946-1261 | Every copy is in the linked program whole, at its address; only immediates change. |
| `Linker.CallsLand` | libdtrace/dt_cc.c:1263-1304 | In the linked program every call to another function goes to the first instruction of the copy of that function. |
| `Linker.CallTarget` | libdtrace/dt_cc.c:887-930 | Every function that a copy calls has a copy, except for the program itself. |
| `Linker.ReadyCallsKeep` | libdtrace/dt_cc.c:1227-1233 | In the copy of a function that was linked before, calls keep their displacement. |
| `Linker.ConstantsSet` | libdtrace/dt_cc.c:1263-1304 | Constants get their values, a 64-bit one in two halves, and the program counter constant the place of its instruction. |
| `Linker.CallsToSelf` | libdtrace/dt_cc.c:887-930 | Before the pass that drops such calls: a call back to the program itself reaches it exactly if its identifier had address 0 before linking; an identifier without address sends it to -1. |
| `Relink.LinkLands` | libdtrace/dt_cc.c:946-1411 | In the linked program every call with a record, of every copy, linked before or not, goes to the code of the function it names, unless that is the program itself. |
| `Relink.PlainKept` | libdtrace/dt_cc.c:946-1304 | An instruction of any copy for which its function has no record is in the linked program as it is. |
| `Relink.ReadyKept` | libdtrace/dt_cc.c:1036-1041 | In the copy of a function that was linked before every instruction stays as it is, constants included, unless it is a call whose displacement does not lead to the target of its record. |
| `Relink.ReadyCopied` | libdtrace/dt_cc.c:1036-1041 | So after any links the copy of a linked function in a program is that function, instruction by instruction. |
| `Relink.NothingLinked` | libdtrace/dt_cc.c:1306-1411 | A library in which nothing has been linked is a start for all this. |
| `Relink.DropCalls` | libdtrace/dt_bpf.c:1227-1258 | Every instruction with a record for the named function becomes a no-op and no other changes; those records go, and the others stay in their order. |
| `Relink.CutLands` | libdtrace/dt_bpf.c:1227-1258 | After that pass no record names the function, and all calls land that are left. |
| `Relink.LinkStep` | libdtrace/dt_cc.c:1306-1411 | Linking a function, dropping its calls to itself and marking it ready keeps a library in which all calls of all linked functions land or are no-ops where the function was cut. |
| `Relink.LinksLand` | libdtrace/dt_cc.c:1306-1411 | So after any number of links, each using the results of the ones before, calls in all linked functions land on the code of the function named. |
| `Aggregate.CombineInit` | libdtrace/dt_aggregate.c:456-482 | Merging with the initial data changes nothing. |
| `Aggregate.CombineComm` | libdtrace/dt_aggregate.c:456-482 | Merging is commutative. |
| `Aggregate.CombineAssoc` | libdtrace/dt_aggregate.c:456-482 | Merging is associative. |
| `Aggregate.FoldOrder` | libdtrace/dt_aggregate.c:456-482 | The aggregate depends only on the multiset of the updates. |
| `Aggregate.FoldIs` | libdtrace/dt_aggregate.c:456-482 | What the aggregate of updates is: for count, sum, avg and the distributions each word is the sum of that word of all updates modulo 2 to the 64; for max and min it is one of the updates, and none is greater or less as a signed number. |
| `Aggregate.Merge` | libdtrace/dt_aggregate.c:456-482 | The switch and the loop over words compute the merged data. |
| `Aggregate.CellsHold` | bpf/get_agg.c:42-81 | In every run of updates, clears and snapshots on any number of CPUs, each cell holds the aggregate of its updates since the last clear, whatever generation it was left in. |
| `Aggregate.EntriesHold` | libdtrace/dt_aggregate.c:552-707 | In every run, each entry of the consumer of the present generation holds the aggregate of what the snapshot has read. |
| `Aggregate.SnapshotSequential` | libdtrace/dt_aggregate.c:742-790 | After any run, a snapshot that reads no cell twice shows for every reduced key what applying all updates of the cells read for it, in one sequence to one cell, would show. |
| `Aggregate.SnapshotShows` | libdtrace/dt_aggregate.c:742-790 | After any run, a snapshot of all cells of all CPUs shows for every reduced key the aggregate of all updates since the last clear whose key reduces to it: word by word their sum modulo 2 to the 64, or the one that is greatest or least as a signed number. |
| `Aggregate.Consumer.SnapOne` | libdtrace/dt_aggregate.c:552-707 | The key is reduced, and the entry of the reduced key is made from, or merged with, or left by the cell according to the generations; no other entry changes. |
| `Aggregate.Consumer.SnapCpu` | libdtrace/dt_aggregate.c:709-737 | All cells of a CPU in whatever order, each exactly once: the table is the one that a sequence of reads covering that CPU reaches. |
| `Aggregate.Consumer.Snapshot` | libdtrace/dt_aggregate.c:742-790 | Whatever has happened before: afterwards the table is the one reached by that run and a covering snapshot, and every entry of the present generation has the sums, or the greatest or least, of all updates whose key reduces to its key. |
| `Aggregate.Consumer.Clear` | libdtrace/dt_aggregate.c:1880-1886 | Every entry is reset to the initial data of its generation, and none is added or removed. |
| `Aggregate.OutdatedExactly` | libdtrace/dt_aggregate.c:599-660 | A snapshot without an entry for a key leaves an outdated one behind exactly if all cells read are outdated and none is newer than the first. |
| `Aggregate.SnapshotOutdated` | libdtrace/dt_aggregate.c:599-660 | The same over every run and every reduced key: when there is an entry at all, and which generation it has. |
| `Aggregate.KnownNeverOutdated` | libdtrace/dt_aggregate.c:599-660 | A key that has an entry when the snapshot begins never shows outdated data. |
| `Aggregate.ClearedComesBack` | libdtrace/dt_consume.c:1306-1333 | Five is added, the aggregation cleared before any snapshot: the first snapshot shows five. |
| `Llquantize.BinOf` | libdtrace/dt_cg.c:7848-7980 | For all accepted parameters and all 64-bit values the generated loop over magnitudes and steps computes the closed form of the bin, with no overflow on the way. |
| `Llquantize.FindMag` | libdtrace/dt_cg.c:7880-7925 | The loop finds the magnitude with its upper limit, or that there is none. |
| `Llquantize.StepIn` | libdtrace/dt_cg.c:7925-7960 | The step within the magnitude is the position between its limits. |
| `Llquantize.PositionExact` | libdtrace/dt_cg.c:7848-7980 | The magnitude of a value lies between the lower boundary of its bin and that of the next. |
| `Llquantize.PositionMono` | libdtrace/dt_cg.c:7848-7980 | Greater magnitudes are in farther bins. |
| `Llquantize.BinMono` | libdtrace/dt_cg.c:7848-7980 | Every value has a bin within the data, and bins ascend with values. |
| `Llquantize.EndBins` | libdtrace/dt_cg.c:8010-8084 | The first bin begins and the last one ends at the limits of the parameters. |
| `Llquantize.WeightedSum` | libdtrace/dt_aggregate.c:196-232 | The sum for sorting is the sum over all bins of count times the lower boundary of the bin, negative on the negative side. |
| `Llquantize.MagSum` | libdtrace/dt_aggregate.c:196-232 | The inner loop adds exactly the bins of its magnitude. |
| `Llquantize.UnevenSum` | libdtrace/dt_aggregate.c:196-232 | The first loop adds exactly the bins of magnitude 0 when it has more steps than values. |
| `Quantize.BinOf` | bpf/agg_qbin.c:13-40 | The bit tests find, for every 64-bit value, the power-of-two bin whose boundaries enclose it. |
| `Quantize.BinUnique` | bpf/agg_qbin.c:13-40 | There is only one such bin. |
| `Quantize.BinMono` | bpf/agg_qbin.c:13-40 | Bins are in range and ascend with values. |
| `Quantize.LinearBin` | bpf/agg_lqbin.c:13-24 | For all accepted parameters and values the bin is the level that encloses the value, or underflow or overflow, although the difference does not fit a signed word. |
| `Quantize.LinearMono` | bpf/agg_lqbin.c:13-24 | Bins ascend with values. |
| `Quantize.Tally` | libdtrace/dt_cg.c:7773-7799 | After any sequence of samples each bin of quantize() has the sum of the increments of the samples in it, modulo 2 to the 64, and together they have all: no sample is dropped or put elsewhere. |
| `Quantize.LinearTally` | libdtrace/dt_cg.c:7773-7799 | The same for the bins of lquantize(), with those below and above the levels. |
| `Stddev.Multiply` | libdtrace/dt_cg.c:8563-8613 | Three 32-bit products, put together with their carries, are the 128-bit square. |
| `Stddev.Square` | libdtrace/dt_cg.c:8534-8613 | For every signed word the two words computed are its square. |
| `Stddev.Add` | libdtrace/dt_cg.c:8488-8531 | One update adds one, the value and the 128-bit square, carry included. |
| `Stddev.Run` | libdtrace/dt_cg.c:8488-8531 | After any sequence of values the cell has their number, their sum and the sum of their squares modulo 2 to the 128. |
| `Stddev.MergeExact` | libdtrace/dt_aggregate.c:477-480 | Merging two cells word by word is exact exactly if the low words of the square sums do not carry. |
| `Stddev.CarryLost` | libdtrace/dt_aggregate.c:477-480 | Two cells whose square sums are 2 to the 63 merge to 0. |
| `BitField.LoadBytesIs` | libdtrace/dt_cg.c:81-94 | The bytes loaded for a field of so many bits are the least power of two with room for them. |
| `BitField.GetIs` | libdtrace/dt_cg.c:3577-3671 | The shifts yield the field, sign-extended if it is signed, for all words. |
| `BitField.SetIs` | libdtrace/dt_cg.c:3719-3761 | The masks replace exactly the bits of the field by the low bits of the value, for all words. |
| `BitField.FieldExact` | libdtrace/dt_cg.c:3558-3819 | Reading exactly, writing exactly without touching other bits, and reading back what was written hold, each for all memory and values, exactly for the fields that end within the word loaded for their number of bits. |
| `BitField.SevenAtFour` | libdtrace/dt_cg.c:3558-3819 | Seven bits from bit 4 on: 127 is written and 15 read back. |
| `Dvars.TlsKeyIs` | bpf/get_dvar.c:36-66 | The key of a thread-local variable is its id below the low 31 bits of the number of the thread. |
| `Dvars.TlsKeysMeet` | bpf/get_dvar.c:36-66 | Two threads share a key exactly if their numbers agree in the low 31 bits. |
| `Dvars.ThreadsMeet` | bpf/get_dvar.c:36-66 | In terms of the threads: tasks share a key exactly if their ids differ by a multiple of 2 to the 31, idle threads if their CPUs do, and a task and an idle thread if the id and the CPU counted from behind all CPUs do. |
| `Dvars.Store.GetDvar` | bpf/get_dvar.c:68-109 | Look up, make or delete the value of a key: whole new state, when a pointer is returned, and when a drop is counted. |
| `Dvars.Store.GetTvar` | bpf/get_dvar.c:111-115 | Through its key a thread-local variable is found or made, exactly if it has a value or there is room, no other variable changes, and drops and tuples are as said. |
| `Dvars.Store.GetAssoc` | bpf/get_dvar.c:117-185 | The same for an associative array element through the address of its tuple, which is made if there is room for it and goes when the value is set to zero. |
| `Dvars.Store.Load` | libdtrace/dt_cg.c:3357-3404 | A load yields the value, zero if there is none, and changes nothing. |
| `Dvars.Store.Assign` | libdtrace/dt_cg.c:4218-4273 | A store sets that variable and no other, zero deletes it; it succeeds exactly if it is of zero, the variable has a value, or there is room for the tuple and the value, and otherwise is counted as a drop. |
| `Dvars.Replay` | bpf/get_dvar.c:68-185 | Any sequence of loads and stores, with whatever room and reused addresses: the log of results is the one of a single map with default zero, in which exactly the stores succeed that there is room for. |
| `Dvars.EventsUnique` | bpf/get_dvar.c:68-185 | That log is determined by the operations alone. |
| `Dvars.TupleAdded` | bpf/get_dvar.c:117-185 | A new tuple changes the value of no variable. |
| `Dvars.TupleRemoved` | bpf/get_dvar.c:117-185 | Removing a tuple with its value leaves all other variables as they are. |
| `Reentry.StepGuarded` | libdtrace/dt_cg.c:240-274 | Every step of firing, testing, entering, running clauses, dependent probes, ERROR and leaving keeps the guard: at most one program inside, with the state as it left it. |
| `Reentry.AtMostOneInside` | libdtrace/dt_cg.c:240-274 | In every reachable state at most one program of the CPU is using the machine state. |
| `Reentry.PridTells` | libdtrace/dt_cg.c:971-998 | In every reachable state the probe id in the machine state is non-zero exactly if a program is inside, and is the id of the probe whose clauses it runs, also within dependent probes and ERROR. |
| `Reentry.FreeAtTheEnd` | libdtrace/dt_cg.c:1006-1026 | Once all programs have returned the state is free again. |
| `Reentry.NestedChangesNothing` | libdtrace/dt_cg.c:240-274 | Whatever fires above a program that is inside leaves the shared state as it is. |
| `Reentry.ErrorRestores` | bpf/probe_error.c:26-45 | Whatever the ERROR clauses do, faulting included, and whatever fires meanwhile: afterwards the probe id is that of before the fault, and the arguments are exactly if no ERROR clause has faulted or they were the arguments of ERROR anyway. |
| `Reentry.DependentRestores` | libdtrace/dt_cg.c:863-998 | Whatever a dependent probe's clauses do to the arguments, whatever faults and whatever fires meanwhile: afterwards the arguments are those of before, and the probe id that of the dependent probe. |
| `Reentry.ArgumentsLost` | bpf/probe_error.c:26-45 | A reachable state whose ten arguments are ones, and one after a fault and a fault in ERROR where they are 0, the id 7, and statement, instruction, fault and value of the fault. |
| `Joined.KeyCmpZero` | libdtrace/dt_aggregate.c:831-940 | Keys compare equal exactly if they are equal, whichever position comes first. |
| `Joined.KeyCmpTransitive` | libdtrace/dt_aggregate.c:831-940 | The comparison is transitive, so sorting by it is meaningful. |
| `Joined.KeyCmpIs` | libdtrace/dt_aggregate.c:831-940 | Keys are ordered by their number of fields and then by the first field that differs, counted from the sort position on and around; the comparison is antisymmetric. |
| `Joined.BuildMaps` | libdtrace/dt_aggregate.c:1500-1564 | The two maps give each variable its column and each repeated variable the column it is taken from. |
| `Joined.Describe` | libdtrace/dt_aggregate.c:1564-1640 | The zeroes of a column have the description of its variable if that has an entry, and otherwise that of the variable found by taking the sort position off. |
| `Joined.OwnZeroes` | libdtrace/dt_aggregate.c:1593-1640 | That is the column's own variable if the variable has an entry, or the sort position is 0 or half the number of variables; for different variables only then. |
| `Joined.OthersZeroes` | libdtrace/dt_aggregate.c:1593-1640 | Three variables sorted by the second, of which only the first has an entry: the zeroes of the second are described as the third's, those of the third as the first's. |
| `Joined.GroupFits` | libdtrace/dt_aggregate.c:1740-1744 | A group of entries with one key has no more entries than there are variables. |
| `Joined.Bundle` | libdtrace/dt_aggregate.c:1735-1791 | The row of a group has in every column the entry of that variable with that key, or if there is none zeroes, with the description found for that column. |
| `Joined.Rows` | libdtrace/dt_aggregate.c:1735-1791 | The loop makes one exact row at each boundary between keys. |
| `Joined.Walk` | libdtrace/dt_aggregate.c:1480-1853 | For every list of variables, repeated or absent ones included, and every table: an error exactly if a variable is invalid, otherwise rows that join the entries, one for every key that occurs, and which variable's description each zero has. |
| `Joined.EntryInOneRow` | libdtrace/dt_aggregate.c:1480-1853 | Every entry of a listed variable is in exactly one row, in its column. |
| `Htab.SlotIndex` | libcommon/dt_htab.c:164-165 | Masking by size minus one is the remainder modulo the size. |
| `Htab.Table.constructor` | libcommon/dt_htab.c:96-116 | A new table is valid and empty. |
| `Htab.Table.Resize` | libcommon/dt_htab.c:149-179 | Doubling keeps all entries in their order, and every bucket. |
| `Htab.Table.Insert` | libcommon/dt_htab.c:185-225 | The entry comes first among its equals, the rest is unchanged; counters are exact and buckets stay where they are, whether or not the table is doubled. |
| `Htab.Table.Lookup` | libcommon/dt_htab.c:230-242 | The latest of the entries equal to the argument, or none exactly if there is none. |
| `Htab.Table.FindEntry` | libcommon/dt_htab.c:248-257 | The latest of them that satisfies the condition, or none exactly if none does. |
| `Htab.Table.Delete` | libcommon/dt_htab.c:263-310 | Exactly that entry goes, and its bucket exactly if it was the last one there; false exactly if there is no equal entry. |
| `Htab.Table.Advance` | libcommon/dt_htab.c:316-381 | One cycle of the iterator goes from the bucket it has kept to the next entry in the order of the table. |
| `Htab.Table.Next` | libcommon/dt_htab.c:316-381 | Each call returns the next of the entries to come, and none exactly after the last. |
| `Htab.AheadKept` | libcommon/dt_htab.c:316-381 | Deleting the entry just returned frees no bucket that the iterator is in and leaves what is ahead as it is. |
| `Htab.Discard` | libcommon/dt_htab.c:263-310 | The same for the delete operation on a table and a running iterator. |
| `Htab.Sweep` | libcommon/dt_htab.c:316-381 | A loop that deletes any of the entries just returned sees every entry exactly once, and exactly the others remain. |
| `Chunks.Session.Call` | dtprobed/dtprobed.c:657-917 | One call in any phase: reply, next phase and what has been gathered, for every input and every failure of the daemon's own calls; each reply but a retry leaves the session at its start with no buffer. |
| `Chunks.Session.TakeChunk` | dtprobed/dtprobed.c:783-848 | A chunk is put behind the previous ones, never beyond the announced size, and progress is made with every retry. |
| `Chunks.Exchange` | dtprobed/dtprobed.c:657-917 | From any session between exchanges, for every process memory and every sequence of failures: the exchange ends, the requests tile the announced range, and the DOF delivered is exactly that range, exactly if nothing failed and the last chunk is not shorter than a header. |
| `Chunks.FieldsFound` | include/dtrace/helpers.h:94-98 | The address and the size that are read from the bytes of the two structures are those that are in them, in the order of their fields and with the least byte first. |
| `Chunks.OfferDelivered` | dtprobed/dtprobed.c:657-917 | So the DOF delivered is the one that the process offers: from the address in its helper structure, as long as the DOF header says. |
| `Chunks.ShortPiece` | dtprobed/dtprobed.c:783-848 | DOF of one full chunk and ten bytes is never delivered, although nothing fails. |
| `Chunks.Fetching` | dtprobed/dtprobed.c:783-848 | The same from the first chunk on. |
| `Usdt.AddTracepoint` | libcommon/usdt_parser_notes.c:741-819 | A note is added to the probe that the look-up by hash slot finds, or to a new one, exactly if it is declared and its arguments agree; counts stay right and the note is one more tracepoint. |
| `Usdt.GroupNotes` | libcommon/usdt_parser_notes.c:741-819 | For every sequence of notes: success exactly if each is for a declared probe; then each provider has exactly its own notes added one after the other, the tracepoints of all probes are exactly the notes and all counts are right. |
| `Usdt.Pipe.EmitProbe` | libcommon/usdt_parser_notes.c:576-669 | The records of a probe and of all its tracepoints are appended, in order. |
| `Usdt.Pipe.EmitAll` | libcommon/usdt_parser_notes.c:821-826 | The records of all providers with tracepoints and the end mark are appended. |
| `Usdt.ReadStream` | dtprobed/dtprobed.c:925-1020 | Whatever is printed for providers with right counts is accepted and read through exactly to its end mark. |
| `Usdt.Accumulate` | dtprobed/dtprobed.c:925-1020 | The reader accepts a stream exactly if it is well formed, and what it accumulates is the stream up to the end mark unchanged. |
| `Usdt.ReadDofStream` | libcommon/usdt_parser_dof.c:732-976 | A stream printed from DOF is accepted exactly if all probes of all providers are valid. |
| `Usdt.BothRefused` | libcommon/usdt_parser_dof.c:732-976 | A valid probe is read alone, and not beside an invalid one. |
| `Usdt.WriteStream` | dtprobed/dof_stash.c:657-785 | The stream is written to files, one a probe with exactly its records, exactly if no probe appears twice. |
| `Usdt.WriteParsed` | dtprobed/dof_stash.c:657-785 | The loop over the accumulated records computes these files or reports the failure, and no assertion in it fails on accepted streams. |
| `Notes.GroupedOne` | libcommon/usdt_parser_notes.c:741-819 | The notes of a provider are grouped, one probe for each function and name with exactly its notes, the first in front and the others latest first, exactly if every note is met: it is the first of its names, or the first one, hashed with its offset, is in the slot where the names hashed without offset are looked for, at the size the table then has; otherwise two probes have the same names. |
| `Notes.FewMet` | libcommon/usdt_parser_notes.c:192-229 | With at most 34 declared probes and probes in functions every note is met, because only the last character decides the slot. |
| `Notes.TwoProbes` | libcommon/usdt_parser_notes.c:741-819 | With 34 declared probes or more: two notes for one probe of one function that end up as two probes of the same names. |
| `Notes.LastFindableKept` | libcommon/usdt_parser_notes.c:741-819 | Of several probes with the same names the latest is the one that look-ups can find, at every step. |
| `Notes.OthersHidden` | libcommon/usdt_parser_notes.c:741-819 | So no look-up depends on the order of equal probes within a slot. |
| `Notes.FreshIfMet` | libcommon/usdt_parser_notes.c:741-826 | For all providers of a module: no file is there twice exactly if all notes are met. |
| `ProbeFile.Load` | libdtrace/dt_pid.c:916-1090 | The reader of a probe's file yields as many tracepoints as the probe announces, exactly if version, provider, probe, argument and tracepoint records come as announced. |
| `ProbeFile.FileTells` | libdtrace/dt_pid.c:916-1090 | What is read from the file of a probe: names, declared arguments, and for each tracepoint its offset above the base, its enabled flag and its arguments; nothing exactly if there are translated arguments and no native ones, as they are then expected and not written. |
| `Delivery.AllDelivered` | libcommon/usdt_parser_notes.c:741-826 | When all notes are met, there is a file for some names exactly if a note has them, and what is read from it is exactly those notes in the order in which they are linked, with the arguments declared. |
| `Delivery.Pipeline` | libcommon/usdt_parser_notes.c:741-826 | From notes to files and back: grouping succeeds exactly if the notes fit, its stream is then always accepted, and it is written exactly if all notes are met, the files being those of the grouped probes and read as their notes; without grouping there are no files. |
| `HashValue.HvalLow` | libcommon/dt_htab.c:73-91 | Whatever the initial value, the low four bits of the hash value of a string are those of its last character. |
| `HashValue.TableSizeIs` | libcommon/dt_htab.c:185-225 | The size of the table for a number of buckets is the least power of two that they do not overfill, and divides all later sizes. |
| `HashValue.SmallTable` | libcommon/dt_htab.c:185-225 | Up to 34 buckets the slot depends on the low four bits only, from 35 on on a fifth. |

## Left out

- Asm.RelocsAscending: covers relocations of identifiers on mov, add, lddw and call instructions; relocations of stw and stdw and the tables for kernel and user symbols are not modelled, because they would repeat the same case.
- Asm.Assemble: label numbers are not limited to the 16 bits of the offset field that holds them until they are resolved.
- Correct.GenCorrect: is for expressions whose comparisons and `?:` do not spill; Execution.GenLeaves and Correct.GenExact have no such condition.
- Clause.ProgramCorrect: is for programs of at most 0x8000 instructions, where every displacement fits its 16 bits, and whose comparisons and `?:` do not spill (Clause.ProgramLeaves is for all); the prologue is without the set-up of the output buffer.
- Conversions.ComparesAsC: types are integers of 1, 2, 4 or 8 bytes; enumerations and typedefs are resolved before.
- Clause.ProgramLeaves: is for programs of at most 0x8000 instructions; the prologue is without the set-up of the output buffer.
- Clause.ClauseRuns: the prologue is without the set-up of the output buffer; spilling as in Clause.ProgramCorrect.
- Clause.ClauseLeaves: the prologue is without the set-up of the output buffer.
- Clause.ClauseExactly: the prologue is without the set-up of the output buffer.
- Clause.ClauseClosed: the prologue is without the set-up of the output buffer.
- Clause.Translate: the prologue is without the set-up of the output buffer.
- Clause.CompileClause: the prologue is without the set-up of the output buffer.
- Casts.CastsExact: has the static test as a sufficient condition for whole expressions; necessary and sufficient conditions are given per operator in Casts.OperatorExact, Casts.UnaryExact, Casts.AssignAlways and Casts.AssignOpAlways.
- Relink.LinkLands: is for programs of fewer than 2 to the 31 instructions.
- Linker.CallsToSelf: is about the program before its calls to itself are dropped, which Relink.DropCalls models.
- Linker.LinkProgram: the values of constants are a parameter, and variable and string tables are not modelled.
- Aggregate.SnapshotShows: says nothing about an entry that is left with an outdated generation; Aggregate.SnapshotOutdated says exactly when there is one.
- Aggregate.CellsHold: a full map, where an update is dropped, is not modelled.
- Aggregate.Consumer.SnapOne: the table is a map from keys; its hash chains and the memory it allocates are not modelled.
- Chunks.FieldsFound: is for little-endian machines.
- Llquantize.WeightedSum: sums are exact integers where the source has long double.
- Htab.Table.Insert: entries are not inserted twice, and allocation does not fail; linked lists are sequences, and a bucket's address is a number that it keeps. Equal entries have equal hash values, which the probes of usdt_parser_notes.c do not (their offset is hashed and, when one is zero, not compared); Notes models the look-up of those.
- Htab.Table.Delete: an entry that is not in the table but equal to one in it is not deleted, as the source would unlink a foreign entry.
- BitField.FieldExact: is for little-endian machines; a field whose end needs a shift by a negative amount is read as nothing.
- Dvars.Replay: is for threads whose numbers differ in the low 31 bits; the address of a tuple is any that is not in use.
- Joined.Walk: the result of qsort() is a parameter, any order that sorts by the keys; sorting the finished rows and printing them is not modelled. Every variable asked for has a description, so that the fallback for anonymous enablings is not modelled.
- Chunks.Exchange: failing to allocate, parse or reply are flags, any sequence of them; each call brings the bytes that were asked for.
- Usdt.ReadDofStream: decoding the DOF sections is not modelled; the stream is what the decoded providers and probes print.
- Usdt.GroupNotes: the order in which the notes are met is a parameter, any order, and so is the order of printing; parsing the notes and the expressions of their arguments is not modelled.
- ProbeFile.Load: a file that ends early is refused, where the source may look at the memory after it; which mapping an address is in and handing the tracepoint to the provider are not modelled.
- HashValue.HvalLow: characters count as they are; that a plain char of 128 or more may be negative in C is not modelled.
- Usdt.Accumulate: how many probes a later provider record announces is a parameter, since the reader does not check the type of that record.
- Increment and decrement, pointers, strings, structures, subroutines, function calls, associative arrays and thread-local variables inside compiled expressions.
- The set-up of the output buffer at the beginning of a clause, data records and speculation.
- Unsigned division by zero, which is left to what BPF does (zero, or the dividend).
- Parsing and type checking of D; expressions come with their types.
- Attaching to probes, the providers, reading kernel symbols, printing.
