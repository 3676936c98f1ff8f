# Verification model of the AMX Mod X core

AMX Mod X runs plugins that are compiled to byte code for the Pawn abstract machine. This project
models the machine and the parts of the host that depend on it, and proves what they keep.
`dafny verify dfyconfig.toml` checks all of it.

The model is of the ANSI C build: the interpreter with the opcode switch, 32-bit little-endian cells, no
just-in-time compiler. What the source updates in place is updated in place here: buffers are arrays, the
structures are classes, and their loops are loops with invariants. Each of these methods is proved against a
function or predicate on values, and the lemmas are about those.

| file | models | main results |
|---|---|---|
| `Expand.dfy` | `expand`, which decompresses a program image in place and from its end | it equals a forward decoder, for exactly the images that meet its assertions; the ring of delayed writes |
| `Wrappers.dfy` | optional values | used by the next files |
| `Encode.dfy` | `write_encoded` of the compiler | what the compiler writes the loader decodes to the same cells; the codes are the shortest |
| `Machine.dfy` | machine states and the step of the interpreter | used by the next files |
| `Peephole.dfy` | the compiler's table of sequences | the shorter sequences do the same, and what they lose |
| `Optimizer.dfy` | the hook that replaces float natives by FLOAT opcodes | what it rewrites, by the names of the natives |
| `Relocate.dfy` | `amx_BrowseRelocate` | the code base is added once to every jump operand and to nothing else |
| `ControlFlow.dfy` | loader and interpreter together | control never leaves the instructions that the loader visited |
| `Simulation.dfy` | plain and optimized code together | both end in the same ways |
| `Calls.dfy` | CALL, PROC, RETN | every call tree restores frame and stack |
| `CallTrees.dfy` | whole runs on prepared code | no jump, call or return leaves the visited instructions |
| `HostCalls.dfy` | `amx_Push`, `amx_Allot`, `amx_Release`, `amx_Exec`, `amx_Callback` | stack, heap and parameter count over nested runs; what a call computes |
| `PublicCalls.dfy` | a public function from the host's call to its return | it returns its value through the HALT at the beginning of the program |
| `ForwardCalls.dfy` | `CForward::execute`, `CSPForward::execute` | which plugins run, with what parameters, and what comes back; heap and stack balanced |
| `CallFunc.dfy` | the callfunc natives | aliasing preserved, what is copied back, heap conserved |
| `ForwardIds.dfy` | ids of single-plugin forwards | no id is given away while it is held or executing |
| `Tasks.dfy` | the scheduler | from the registration on: how often, when and in which slot |
| `Events.dfy` | registration, filters and execution of message events | filtering has the meaning that its flags and filters are written with, also when messages nest |
| `Tracer.dfy` | the debugger's trace | it is the call stack, for every nested execution |
| `PackedStrings.dfy` | strings in cells | round trip and length |
| `Utf8.dfy` | UTF-8 of section 2 of RFC 2279 | a bijection with the shortest forms, for characters and for strings |
| `Commands.dfy` | command lists and their cursor | the cursor agrees with a fresh scan |
| `DataPack.dfy` | typed data packs | round trip through growth |

Conventions. Arithmetic is on unbounded integers with the 32-bit truncation written out (`Wrap`, `Unsigned`, `Truncated`);
the bitwise `or` of disjoint bits in `expand` and in UTF-8 is an addition. `Fault` is a run that touches memory outside the
machine, where the source has no defined behaviour. Floats are bit patterns with uninterpreted operations. Native functions,
callbacks and scripts are arbitrary functions that say what the host code does next; natives also depend on a count of
all that the host has done, so that they can have state of their own. Ghost fields record what the code does not:
callbacks, pushed and taken parameters.

## What the code does not promise

Some expected properties fail in the code; the model keeps the code, and these members say exactly when they hold.

- `FLOAT.ROUND` treats every method other than 0 and 1 as 2, `floatround` does not: `Simulation.RoundingAgrees`.
- `amx_Allot` compares unsigned numbers and truncates the size to 32 bits, so that some requests larger than all the free space are granted, and some of those move the heap by a few bytes: `HostCalls.AllotGrants`.
- Parameters that were pushed for a call that is turned away stay for the next call, and a call that ends may leave them: `HostCalls.TurnedAwayLeavesParameters` is the input, `HostCalls.CallIsNeutral` the condition.
- Arrays of no cells that are passed by reference share the address of a neighbouring block: `CallFunc.AliasingPreserved`.
- The peephole rules push less: of the cell below the stack the longer sequence reads what it has pushed (`Peephole.FetchedBelow`), some rules change a register without a mark that it is not used any more (`Peephole.PushedBack`, `Peephole.PushedTwo`), and the rule for a declared constant drops the check of the stack margin (`Peephole.DeclaredPreserves`).
- An id that is unregistered twice can be given away twice: `ForwardIds.GivenAwayTwice` is the input, `ForwardIds.UnregisteredAgain` the condition.
- A forward that is executed recursively can lose its id while the outer execution goes on: `ForwardIds.RecursionRecyclesEarly`.
- A scheduled task with repeat count 0 is never called, one with a count below -1 is called once: `Tasks.NeverCalled`, `Tasks.CallsOfPlainTask`.
- A message of the same type sent by a callback clears marks that the outer message still needs: `Events.NestedSameType`.
- A return by more than one frame is recorded in the wrong frame of the trace: `Tracing.TracksOneFrameUp`.
- An unpacked string whose first character is negative as a `char` is taken for a packed one: `PackedStrings.SetString`.
- `amx_GetString` writes a second terminator behind a packed string that is shorter than the room by two or more: `PackedStrings.GetString`.
- `amx_UTF8Put` accepts negative cells and stores one byte of them: `Utf8.ReadsBack`.
- The cursor of the command lists is not reset by a registration, and can then skip or repeat commands: `Commands.AgreesAfterInsert`, `Commands.CmdMngr.Insert`.
- A message type equal to the number of types is accepted, and the source reads behind its table: `Events.EventsMngr.ParserInit`.

## Model

| member | source | states |
|---|---|---|
| Compact.Expand | amx/amxmodx/amx.cpp:789-841 | no assertion of the loader fails exactly if the image is made of complete codes of at most five bytes for memsize/4 cells and stays within the ring; then the memory holds the little-endian image of the cells that a forward decoder gives, and bytes above memsize are untouched |
| Compact.ExpandCodes | amx/amxmodx/amx.cpp:801-840 | the outer loop: the same equivalence; no code byte is overwritten before it has been read, and the ring is empty at the end |
| Compact.ReadCode | amx/amxmodx/amx.cpp:802-820 | the inner loops find the last code of the unread bytes and give its forward value; they fail only on images that are not well formed |
| Compact.SignExpand | amx/amxmodx/amx.cpp:815-820 | the sign loop fills in the bits that the value lacks |
| Compact.BackwardIsForward | amx/amxmodx/amx.cpp:804-820 | collecting a code from its last byte and filling in the sign equals shifting it in from its first byte with sign extension, in 32 bits |
| Compact.CodesFromTheEnd | amx/amxmodx/amx.cpp:804-813 | cutting an image into codes from the end gives the cut from the beginning |
| Compact.RingRoom | amx/amxmodx/amx.cpp:832 | a cell finds a free slot exactly if the codes in front of it take at most 4m + 255 bytes |
| Compact.RingOccupancy | amx/amxmodx/amx.cpp:822-837 | between two codes the ring holds a contiguous block of cells in strictly decreasing order of address, at most (codesize - memsize)/4 + 1 of them |
| Compact.SignFilledValue | amx/amxmodx/amx.cpp:815-820 | filling in the sign bits from any position subtracts the weight of that position, in 32 bits |
| Compact.Flush | amx/amxmodx/amx.cpp:822-826 | stores exactly the waiting cells that lie above the unread codes, and nothing below |
| Compact.Place | amx/amxmodx/amx.cpp:822-837 | a decoded cell is in place or waits; the cells decoded so far are all accounted for; fails only when the sizes do not match or the ring is too small |
| Compact.FlushStep | amx/amxmodx/amx.cpp:823-825 | storing the oldest waiting cell keeps all cells in place and all unread codes |
| Compact.Finished | amx/amxmodx/amx.cpp:838-840 | when the codes are used up nothing waits and the memory is the whole image |
| Compact.NotWellFormed | amx/amxmodx/amx.cpp:807-810 | where an assertion of the inner loop fails, the image has a code that is too long or incomplete |
| Compact.Ring.Push | amx/amxmodx/amx.cpp:833-836 | appends to the queue that the slots represent |
| Compact.Ring.Pop | amx/amxmodx/amx.cpp:823-825 | removes the oldest entry of the queue that the slots represent |
| Compression.CodeMeans | amx/amxmodx/amx.cpp:804-820 | what the loader takes a code for, in numbers: a code of n bytes up to four is the two's-complement number of 7n bits that its groups spell, one of five bytes is that number in 32 bits |
| Compression.LoadWritten | amx/amxmodx/amx.cpp:789-841 | the loader accepts everything that the compiler writes, and memory then holds, four bytes little-endian each, exactly the cells that were written |
| Compression.WrittenExpands | amx/amxmodx/amx.cpp:789-841 | what stays within the margin of the compiler is well formed, fits the ring and decodes to the cells |
| Compression.EncodedDecodes | amx/compiler/libpc300/sc6.c:209-227 | the code of every cell is complete and decoded to that cell |
| Compression.EncodedShortest | amx/compiler/libpc300/sc6.c:214-222 | no code of a cell is shorter than the one that is written |
| Compression.EncodedCuts | amx/compiler/libpc300/sc6.c:223-230 | the loader cuts a written image into the codes of the cells |
| Compression.ImageHolds | amx/amxmodx/amx.cpp:824 | an image holds its cells in order, low byte first |
| Compression.SkipLeading | amx/compiler/libpc300/sc6.c:214-220 | the three steps that skip leading zeros and ones leave the shortest code |
| Compression.EncodeCell | amx/compiler/libpc300/sc6.c:205-230 | writes the shortest code of a cell, high group first, with continuation bits |
| Compression.Output.WriteEncoded | amx/compiler/libpc300/sc6.c:192-242 | appends the codes of all cells, and gives up exactly where the codes of some beginning exceed its cells by 62 bytes |
| Optimizer.Setup | amx/amxmodx/optimizer.cpp:84-126 | every float operation is bound to the index of its native exactly if the level (and the processor) enables it and the native exists, else to -1 |
| Optimizer.BindingsByName | amx/amxmodx/optimizer.cpp:84-126 | which native name is bound to which instruction, and by which bit of the level |
| Optimizer.FloatOp | amx/amxmodx/optimizer.cpp:46-53 | a native index is replaced exactly if it is bound |
| Optimizer.FloatOpFrom | amx/amxmodx/optimizer.cpp:46-53 | the first operation bound to the index, or none |
| Optimizer.OnBrowseRelocate | amx/amxmodx/optimizer.cpp:36-78 | replaces SYSREQ.C and its operand by the FLOAT opcode and NOP exactly if the index is bound; changes nothing else |
| Relocation.BrowseRelocate | amx/amxmodx/amx.cpp:564-786 | the walk rewrites the code to its browsed form and succeeds exactly on sequences of whole, known instructions |
| Relocation.BrowseInstruction | amx/amxmodx/amx.cpp:565-774 | one round rewrites the instruction at the position and advances by its length |
| Relocation.RelocateTable | amx/amxmodx/amx.cpp:758-769 | adds the base once to the default target and to the target of every record, and to nothing else |
| Relocation.RelocatesExactly | amx/amxmodx/amx.cpp:722-770 | the code base is added once to every jump, call and SWITCH operand and every case table target; the only other cells that change are those of replaced calls |
| Relocation.ReplacedCalls | amx/amxmodx/optimizer.cpp:44-53 | the calls that are replaced are exactly those of a bound native |
| Relocation.TableCells | amx/amxmodx/amx.cpp:758-769 | the cells of a case table, and which of them are targets |
| Relocation.BrowsedInstruction | amx/amxmodx/amx.cpp:564-774 | every visited instruction is rewritten by itself, whatever surrounds it |
| Relocation.WalkPasses | amx/amxmodx/amx.cpp:564-775 | from a visited position on, browsing the rest is browsing the whole |
| Relocation.BoundariesApart | amx/amxmodx/amx.cpp:564-775 | instructions that the walk visits do not overlap |
| Relocation.Owner | amx/amxmodx/amx.cpp:564-775 | every cell of browsable code belongs to a visited instruction |
| ControlFlow.LandsOnBoundary | amx/amxmodx/amx.cpp:3118-3206 | fall-through, calls, jumps and SWITCH from an instruction that the loader visited continue at one that it visited |
| ControlFlow.StepContinues | amx/amxmodx/amx.cpp:3118-3206 | an instruction continues behind itself by the length that the loader uses, or at its relocated operand |
| ControlFlow.ExecuteContinues | amx/amxmodx/amx.cpp:2662-3652 | the bytes that the interpreter consumes for an opcode are those of the loader's layout |
| ControlFlow.SlotLands | amx/amxmodx/amx.cpp:722-742 | a relocated operand is the address of the instruction that the original operand names |
| ControlFlow.SwitchLands | amx/amxmodx/amx.cpp:3539-3550 | every target that a SWITCH can select is a visited instruction |
| ControlFlow.SelectedCase | amx/amxmodx/amx.cpp:3543-3548 | the case loop selects the default target or the target of some record |
| ControlFlow.TableSelects | amx/amxmodx/amx.cpp:3542-3549 | the selected operand is a cell that the loader has relocated |
| ControlFlow.PlainHasNoOperand | amx/amxmodx/amx.cpp:564-720 | an instruction that the loader takes for one cell does not look at an operand |
| ControlFlow.OperandCounts | amx/amxmodx/amx.cpp:564-720 | an instruction that the loader takes for two cells, and whose meaning the model gives, does look at its operand |
| ControlFlow.BoundaryKept | amx/amxmodx/amx.cpp:564-775 | a boundary of the code is a boundary of the browsed code |
| ControlFlow.BoundaryOrigin | amx/amxmodx/optimizer.cpp:57-75 | a boundary of the browsed code is one of the code, or the NOP of a replaced call |
| ControlFlow.InstructionKept | amx/amxmodx/optimizer.cpp:55-75 | a browsed instruction takes the same cells: as one instruction, or as FLOAT and NOP |
| Simulation.OptimizerPreservesMeaning | amx/amxmodx/optimizer.cpp:36-78 | with natives bound to the float functions, optimized and plain code end in exactly the same ways: same error, registers, memory and next instruction |
| Simulation.LoadOptimized | amx/amxmodx/optimizer.cpp:36-131 | looking up the natives by name and browsing: with a native table that has the float functions under their names, the code that results ends in exactly the same ways as the plain code |
| Simulation.SetupBinds | amx/amxmodx/optimizer.cpp:84-126 | what is looked up by name are the natives that the instructions replace |
| Simulation.OptimizedSimulates | amx/amxmodx/amx.cpp:3481-3501 | every run of the plain code is matched by a run of the optimized code |
| Simulation.PatchedStep | amx/amxmodx/amx.cpp:3565-3619 | SYSREQ.C of a float native takes one step where FLOAT and NOP take two, to the same state |
| Simulation.UnpatchedStep | amx/amxmodx/amx.cpp:2662-3652 | where nothing was replaced both codes take the same step |
| Simulation.SiteSimulates | amx/amxmodx/float.cpp:57-241 | the FLOAT opcode computes what the native does, from the same two parameters on the stack |
| Simulation.RoundingAgrees | amx/amxmodx/float.cpp:188-221 | FLOAT.ROUND agrees with floatround on every number exactly for the methods 0, 1 and 2; the code does not check the method |
| Simulation.RunEnded | amx/amxmodx/amx.cpp:2662-3652 | a run that has ended stays ended, whatever the bound |
| CallingConvention.CallRestores | amx/amxmodx/amx.cpp:3095-3121 | for every call tree whose bodies return with the stack at their frame, RETN restores frm, resumes after the operand of CALL and removes the arguments |
| CallingConvention.CallIsNeutral | amx/amxmodx/amx.cpp:3095-3121 | seen from before the arguments are pushed, stk and frm are what they were, for every number of arguments |
| CallingConvention.RunKeepsFrame | amx/amxmodx/amx.cpp:3095-3121 | at any depth a run keeps its frame and the saved cells of all active calls |
| CallingConvention.SmallestCall | amx/amxmodx/amx.cpp:3095-3121 | a call to a function without a body meets the discipline |
| CallingConvention.ArgumentsPushed | amx/amxmodx/amx.cpp:1625 | pushing arguments lowers stk by their size and touches no other register |
| CallTrees.RunKeepsBoundaries | amx/amxmodx/amx.cpp:3095-3206 | on prepared code a run of any call depth executes only instructions that the loader visited, RETN included, and ends at one |
| CallTrees.BehindCall | amx/amxmodx/amx.cpp:3118-3121 | what follows a CALL, where RETN resumes, is a visited instruction |
| CallTrees.EnterLands | amx/amxmodx/amx.cpp:3095-3121 | CALL and PROC continue at visited instructions |
| Peephole.ReplacedInCode | amx/compiler/libpc300/sc7-in.scp:55-986 | code with the shorter sequence in place of the longer one runs to a state that agrees: same next address, same frame, stack and heap, same memory above the stack, and the registers that the rule keeps |
| Peephole.PlayedInCode | amx/amxmodx/amx.cpp:2822-3652 | a sequence of instructions in the code does what it does by itself |
| Peephole.FetchedBothPreserves | amx/compiler/libpc300/sc7-in.scp:55-128 | two operands fetched with a push and a pop between: 16 pairs of operands |
| Peephole.FetchedBelow | amx/compiler/libpc300/sc7-in.scp:55-128 | of the cell below the stack the rule is right exactly if that cell holds the pushed value |
| Peephole.MovedAndFetchedPreserves | amx/compiler/libpc300/sc7-in.scp:134-148 | a push of the alternate register around a fetch |
| Peephole.PushedAndFetchedPreserves | amx/compiler/libpc300/sc7-in.scp:510-528 | a push of the primary register around a fetch |
| Peephole.PushedAndLoadedPreserves | amx/compiler/libpc300/sc7-in.scp:530-537 | the same around an indirect load, when it does not load from the cell below the stack |
| Peephole.PushedBackPreserves | amx/compiler/libpc300/sc7-in.scp:538-692 | a push that is popped at once; a register that is moved and pushed |
| Peephole.ExchangedPreserves | amx/compiler/libpc300/sc7-in.scp:270-318 | two operands fetched and exchanged |
| Peephole.ComparingPreserves | amx/compiler/libpc300/sc7-in.scp:215-254 | comparisons with exchanged operands and conditional jumps on comparisons, for all ten comparisons |
| Peephole.ZeroComparingPreserves | amx/compiler/libpc300/sc7-in.scp:867-876 | comparisons with zero, and constants that are zero |
| Peephole.ChainedPreserves | amx/compiler/libpc300/sc7-in.scp:175-194 | chained comparisons |
| Peephole.PushedSourcePreserves | amx/compiler/libpc300/sc7-in.scp:659-692 | a parameter that is fetched and pushed |
| Peephole.PushedInOrder | amx/compiler/libpc300/sc7-in.scp:600-638 | two parameters that are fetched and pushed |
| Peephole.PushedReversed | amx/compiler/libpc300/sc7-in.scp:600-638 | the same in reverse order |
| Peephole.DeclaredPreserves | amx/compiler/libpc300/sc7-in.scp:491-499 | a local variable declared with a constant, where the stack has room: the push makes no check |
| Peephole.ArithmeticPreserves | amx/compiler/libpc300/sc7-in.scp:709-758 | additions, subtractions and comparisons of a constant |
| Peephole.SubtractedPreserves | amx/compiler/libpc300/sc7-in.scp:738-748 | a constant that is subtracted |
| Peephole.StoringPreserves | amx/compiler/libpc300/sc7-in.scp:890-974 | counters whose value is not used, zeros that are stored |
| Peephole.IndexedPreserves | amx/compiler/libpc300/sc7-in.scp:351-414 | an array element or its address, with and without a check of the index |
| Peephole.CheckedPreserves | amx/compiler/libpc300/sc7-in.scp:474-483 | an index that is checked |
| Peephole.ScaledPreserves | amx/compiler/libpc300/sc7-in.scp:444-448 | the address of an element of an array on the stack |
| PublicCalls.PublicReturns | amx/amxmodx/amx.cpp:2662-3452 | a call from the host of a public function whose natives call nothing, if it comes to an end, ends without an error at the HALT at the beginning of the program, gives the primary register as it is when the function returns, and leaves stack and heap without the parameters |
| PublicCalls.FunctionReturns | amx/amxmodx/amx.cpp:3095-3117 | a function that finds a return address of 0 goes there with its frame gone and its parameters removed |
| PublicCalls.PerformIsRun | amx/amxmodx/amx.cpp:2822-3652 | a call tree describes a run of the machine |
| PublicCalls.EntryFrame | amx/amxmodx/amx.cpp:2768-2780 | the function finds a return address of 0 and the number of bytes of its parameters |
| HostCalls.CallConserves | amx/amxmodx/amx.cpp:1627-1633 | a call that ends has taken its parameters off the stack and left the heap as it was, whatever natives do, re-entering included; it is refused exactly for the reasons that amx_Exec checks, and then changes nothing |
| HostCalls.InterpretedEnds | amx/amxmodx/amx.cpp:2822-3652 | every end by HALT or ABORT, at any depth, has the saved stack and heap |
| HostCalls.CallIsNeutral | amx/amxmodx/amx.cpp:1563-1576 | pushes and a call that ends leave stk and hea as they were; paramcount is 0 again exactly if no parameter was pushed after the last call that took its own, which is so if no nested call is turned away; if no call is turned away or bails out, the call does end |
| HostCalls.TurnedAwayLeavesParameters | amx/amxmodx/amx.cpp:2715-2736 | a native pushes one argument and calls a function that does not exist: the outer call ends without an error and with paramcount 1 |
| HostCalls.RanRecorded | amx/amxmodx/amx.cpp:431-485 | a native, whatever calls it makes, leaves no parameters behind if none of its calls is turned away, and the stack where it was if they also end |
| HostCalls.ExecutedRecorded | amx/amxmodx/amx.cpp:2662-2782 | the parameter count is the number of pushes since parameters were last taken, after every call |
| HostCalls.ArgumentsPushed | amx/amxmodx/amx.cpp:1563-1576 | pushed arguments lie on the stack in order, first one on top; nothing below the heap changes |
| HostCalls.RoomForAll | amx/amxmodx/amx.cpp:1567-1568 | all pushes succeed exactly if the margin is free before the last one; the stack drops by their size and each is counted |
| HostCalls.NoRoom | amx/amxmodx/amx.cpp:2769-2783 | a call without room for its frame returns before it executes an instruction |
| HostCalls.AloneIsRun | amx/amxmodx/amx.cpp:2822-3652 | while no native is called the interpreter loop is the run of the abstract machine: same error, registers and memory |
| HostCalls.Admitted | amx/amxmodx/amx.cpp:2699-2738 | when a call is not refused, and where it begins |
| HostCalls.ExecutedReturns | amx/amxmodx/amx.cpp:3441-3454 | a call that ends at a HALT returns the primary register as the HALT finds it, natives and nested calls included, with the operand of the HALT as its error; any other end returns 0 |
| HostCalls.InterpretedReturns | amx/amxmodx/amx.cpp:3441-3454 | the same from any state of the loop on |
| HostCalls.SteppedKeeps | amx/amxmodx/amx.cpp:3108-3117 | while the loop goes on the structure keeps its registers, except that RETN stores the stack without frame, return address and parameters |
| HostCalls.ReturnsFive | amx/amxmodx/amx.cpp:3441-3454 | CONST.pri 5 and HALT 0 return 5 without an error |
| HostCalls.InterpretedIsRun | amx/amxmodx/amx.cpp:2822-3652 | with natives that call nothing, a call that comes to an end is the run of the abstract machine: same error, registers and memory, and the same HALT |
| HostCalls.ReturningAnswers | amx/amxmodx/amx.cpp:431-485 | natives that see the registers and return at once are such natives |
| HostCalls.AllotGrants | amx/amxmodx/amx.cpp:3721 | exactly which requests the unsigned comparison grants, for every int: those whose size in bytes, truncated to 32 bits, leaves the margin free, and those whose truncated size is larger than all the free space by enough; the heap moves by the truncated size |
| HostCalls.AllotReleased | amx/amxmodx/amx.cpp:3731-3736 | releasing a block gives back that block and all later ones, and nothing else changes |
| HostCalls.Amx.Push | amx/amxmodx/amx.cpp:1563-1576 | the machine afterwards and the error are those of the specification for which the guarantees above are proved |
| HostCalls.Amx.AllotCells | amx/amxmodx/amx.cpp:3710-3729 | the block begins at the old heap; the machine afterwards and the error are those of the specification |
| HostCalls.Amx.HostCall | amx/amxmodx/amx.cpp:1563-1576 | pushing all arguments from the last one on and calling gives the machine, status and value of the specification |
| HostCalls.Amx.Exec | amx/amxmodx/amx.cpp:2662-2782 | machine, status and value are those of the specification, for every native, at any depth |
| HostCalls.Amx.Interpret | amx/amxmodx/amx.cpp:2822-3652 | the loop with its own registers gives the machine, status and value of the specification |
| HostCalls.Amx.Callback | amx/amxmodx/amx.cpp:431-485 | the operations of a native, nested calls included, leave the machine of the specification |
| ForwardCalls.OneConserves | amx/amxmodx/CForward.cpp:247-400 | one plugin of a forward: a call that ends leaves stk above the parameters that were waiting and hea where it was, for any parameter list and any callee; without room for the pushes nothing is executed |
| ForwardCalls.EntryDelivers | amx/amxmodx/CForward.cpp:65-118 | if blocks and pushes fit, the callee starts with every string, array and by-ref cell in a block of its own and the parameters on its stack |
| ForwardCalls.EntryGives | amx/amxmodx/CForward.cpp:65-118 | by kind: a text with its terminator, the elements of an array, a cell, at the address that is on the stack; a value on the stack itself |
| ForwardCalls.OneBrings | amx/amxmodx/CForward.cpp:126-192 | every by-ref cell and array to copy back comes back as the callee leaves it in its block, a string buffer as it reads there, all other parameters as they were given; the value is the primary register at the callee's HALT |
| ForwardCalls.AllBrought | amx/amxmodx/CForward.cpp:40-217 | the same for every call of a whole forward |
| ForwardCalls.BlockSizes | amx/amxmodx/CForward.cpp:65-112 | the cells of heap that the block of a parameter takes |
| ForwardCalls.BlocksFitExactly | amx/amxmodx/CForward.cpp:65-112 | the blocks fit exactly if there are none or all of them together leave the margin free |
| ForwardCalls.OneCounts | amx/amxmodx/CForward.cpp:247-400 | no parameters are left behind unless a call inside is turned away |
| ForwardCalls.WhichRun | amx/amxmodx/CForward.cpp:40-63 | the plugins called are the first executable ones in order, up to the first whose return value ends the loop; the result combines exactly their return values; the loop fails only where the blocks of the next plugin do not fit |
| ForwardCalls.EachCall | amx/amxmodx/CForward.cpp:40-192 | every call is the call of that plugin alone, on what the one before brought back, and leaves the machine that is found at the end |
| ForwardCalls.AllRestored | amx/amxmodx/CForward.cpp:40-192 | the machine of every plugin whose call ended has its stack and heap back, and a plugin that was not called is untouched |
| ForwardCalls.ExecuteOne | amx/amxmodx/CForward.cpp:247-400 | the function is called exactly if the blocks fit; then machine, parameters, status and value are those of the specification |
| ForwardCalls.ExecuteForward | amx/amxmodx/CForward.cpp:40-217 | the loop over plugin objects makes exactly the calls of the specification, in order, with its result, parameters and machines |
| ForwardCalls.PrepareAll | amx/amxmodx/CForward.cpp:65-112 | succeeds exactly if every block fits between heap and stack; then blocks are consecutive and filled in order |
| ForwardCalls.PushAll | amx/amxmodx/CForward.cpp:114-118 | pushes from the last parameter to the first |
| ForwardCalls.CopyBackAll | amx/amxmodx/CForward.cpp:147-192 | every parameter gets the cells of its own block although the first release already drops the heap below all blocks; the heap ends where it was |
| ForwardCalls.BlocksAscend | amx/amxmodx/CForward.cpp:65-112 | blocks do not overlap |
| ForwardCalls.PreparedBlocks | amx/amxmodx/CForward.cpp:65-112 | filling a block disturbs none made before |
| ForwardCalls.CombinedMeaning | amx/amxmodx/CForward.cpp:194-212 | ignore: 0; stop: the first positive value; stop2: 1 if some plugin returns 1, else the maximum; continue: the maximum |
| ForwardCalls.CombinedSnoc | amx/amxmodx/CForward.cpp:194-212 | the loop may weigh one return value at a time |
| ForwardCalls.ParamsDelivered | amx/amxmodx/CForward.cpp:65-118 | blocks that were filled are still filled when the function starts |
| CallFunc.Globals.End | amx/amxmodx/amxmodx.cpp:3658-3771 | undefined exactly if the blocks do not fit; else status, value and the callee's machine are those of executing the function on the collected parameters, the caller's ranges end with the callee's final contents when they do not overlap, and no other cell or register of the caller changes; the callee may use callfunc itself, and further calls can follow |
| CallFunc.EndConserves | amx/amxmodx/amxmodx.cpp:3658-3771 | a call that ends leaves the callee's stack above the parameters that were waiting and its heap where it was; without room for the pushes nothing is executed |
| CallFunc.EndReturns | amx/amxmodx/amxmodx.cpp:3733-3771 | gives the primary register at the callee's HALT |
| CallFunc.StartDelivers | amx/amxmodx/amxmodx.cpp:3697-3733 | if blocks and pushes fit, the callee starts with the copies in their blocks and the parameters on its stack |
| CallFunc.AllFitExactly | amx/amxmodx/amxmodx.cpp:3697-3709 | the blocks fit exactly if there are none or all of them together leave the margin free |
| CallFunc.AliasingPreserved | amx/amxmodx/amxmodx.cpp:3711-3718 | parameters by reference reach the callee at one address exactly if the caller passed one address, or if the blocks between them, the upper one included, are of empty arrays |
| CallFunc.BlocksDescend | amx/amxmodx/amxmodx.cpp:3697-3709 | blocks of different parameters are disjoint |
| CallFunc.ReferenceConsistent | amx/amxmodx/amxmodx.cpp:3798-3848 | a push by reference keeps: one block per caller address, and reused entries refer to earlier ones |
| CallFunc.FindFrom | amx/amxmodx/amxmodx.cpp:3798-3848 | the earlier parameter whose block is reused, if there is one |
| CallFunc.Globals.Begin | amx/amxmodx/amxmodx.cpp:3546-3585 | the four results, and that only success changes the globals |
| CallFunc.Globals.PushByVal | amx/amxmodx/amxmodx.cpp:3775-3794 | appends the value when a call has begun and there is room |
| CallFunc.Globals.PushReference | amx/amxmodx/amxmodx.cpp:3850-3907 | appends a copy of the caller's cells, or a reference to the block that an earlier push of the address made |
| CallFunc.PrepareBlocks | amx/amxmodx/amxmodx.cpp:3697-3709 | succeeds exactly if every block fits; then blocks are made from the last parameter to the first, and filled |
| CallFunc.LinkReused | amx/amxmodx/amxmodx.cpp:3711-3718 | reused entries get the address of the first block, in whatever order the pass goes |
| CallFunc.CopyBack | amx/amxmodx/amxmodx.cpp:3744-3768 | copies and releases: the caller's ranges are the callee's blocks, also when a plugin calls itself |
| CallFunc.OneMoreCopied | amx/amxmodx/amxmodx.cpp:3750-3763 | a copy disturbs neither earlier copies nor blocks |
| ForwardIds.RegisteredIdIsNew | amx/amxmodx/CForward.cpp:417-486 | over all runs of well-behaved clients a registration succeeds exactly if the function is found, with an id that no client holds and that is not executing |
| ForwardIds.RecycledAfterReturn | amx/amxmodx/CForward.cpp:493-505 | an id unregistered during its own execution is not free before that execution returns, and is the next one given away after it |
| ForwardIds.NothingLost | amx/amxmodx/CForward.cpp:576-593 | outside executions every id is held or free, failed registrations included |
| ForwardIds.RecursionRecyclesEarly | amx/amxmodx/CForward.cpp:397 | after any recursive execution of a held forward, unregistering it frees the id although the outer execution goes on |
| ForwardIds.RecursionReached | amx/amxmodx/CForward.cpp:397 | registering and executing a function reaches a state in which it is held and executing |
| ForwardIds.UnregisteredAgain | amx/amxmodx/CForward.cpp:576-593 | unregistering a freed id again is harmless exactly if its slot still knows that it is free, which a registration that fails in it makes it forget |
| ForwardIds.GivenAwayTwice | amx/amxmodx/CForward.cpp:417-593 | after register, unregister, a failing registration and unregister again, the same id is given away twice |
| ForwardIds.NextKeeps | amx/amxmodx/CForward.cpp:417-593 | every step of a run keeps the invariant of ids, free stack and marks |
| ForwardIds.Play | amx/amxmodx/CForward.cpp:417-593 | every run keeps the invariant |
| ForwardIds.OpsBalanced | amx/amxmodx/CForward.cpp:493-512 | client operations, executions included, leave the running executions as they are |
| ForwardIds.ExecutionPlays | amx/amxmodx/CForward.cpp:493-512 | an execution enters, plays its body and leaves |
| ForwardIds.ForwardMngr.RegisterSPForward | amx/amxmodx/CForward.cpp:417-486 | the top free id is reused if the function is found, else stays free; without a free id a new slot is made, or nothing |
| ForwardIds.ForwardMngr.UnregisterSPForward | amx/amxmodx/CForward.cpp:576-593 | an executing forward is only marked; any other one is freed once, an invalid or free id changes nothing |
| ForwardIds.ForwardMngr.ExecuteForwards | amx/amxmodx/CForward.cpp:493-512 | an execution with any nested client operations reaches the state of the event run |
| ForwardIds.ForwardMngr.Perform | amx/amxmodx/CForward.cpp:417-593 | any sequence of client operations reaches the state of the event run |
| Tasks.RegisteredTask | amx/amxmodx/CTask.cpp:14-50 | from the registration on, whatever else the callbacks do: the task goes to the first reusable slot or a new one, and is called from there in the frames that its flags, its interval and its repetition count say, for the first time one interval after the registration |
| Tasks.ScheduledOnTime | amx/amxmodx/CTask.cpp:101-154 | call number j (from 0) is never before the start plus j + 1 intervals, and there are no more calls than asked for |
| Tasks.CallsScheduled | amx/amxmodx/CTask.cpp:99-154 | a task is called as scheduled from any of its calls on, with the flags for start and end of the map too |
| Tasks.RunBegins | amx/amxmodx/CTask.cpp:270-281 | the first calls of a slot are those of its task as if it were alone; all of them while it is there |
| Tasks.ChangedTask | amx/amxmodx/CTask.cpp:241-256 | a new interval counts from the change; for a task that is executing from its next call |
| Tasks.OnlyAddressed | amx/amxmodx/CTask.cpp:225-256 | exactly the tasks with the id, and of the plugin if one is given, are removed or changed |
| Tasks.CallsOfPlainTask | amx/amxmodx/CTask.cpp:99-154 | a task that is left alone makes exactly its number of calls and is free after the last; call k is never before t0 + k*base, without drift; a frame in which it is due calls it |
| Tasks.RunOfOne | amx/amxmodx/CTask.cpp:270-281 | with any other tasks and callbacks, a task that nobody removes or changes is called in the frames in which it would be called alone |
| Tasks.FrameOfOne | amx/amxmodx/CTask.cpp:270-281 | in one frame it is called exactly if it is due and has a repetition left |
| Tasks.AtMostOneCall | amx/amxmodx/CTask.cpp:270-281 | in a frame every slot is called at most once, in order |
| Tasks.ExecutingSlotNotReused | amx/amxmodx/CTask.cpp:203-223 | whatever the callback does, the executing slot keeps its task, possibly with a new base, or is free for good |
| Tasks.ExecutedSlot | amx/amxmodx/CTask.cpp:119-154 | after its callback a slot is free or holds the rescheduled task that was called, never a new one |
| Tasks.NeverCalled | amx/amxmodx/CTask.cpp:121-122 | a task set to repeat 0 times is never called |
| Tasks.Reusable | amx/amxmodx/CTask.cpp:206-213 | the first slot that is free and not executing |
| Tasks.TaskMngr.RegisterTask | amx/amxmodx/CTask.cpp:203-223 | the new task takes the first slot that is free and not executing, or a new one; all others are untouched |
| Tasks.TaskMngr.RemoveTasks | amx/amxmodx/CTask.cpp:225-239 | clears the tasks that match and gives the number of those addressed |
| Tasks.TaskMngr.ChangeTasks | amx/amxmodx/CTask.cpp:241-256 | changes the tasks that match and gives the number of those addressed; the planned time of an executing one is kept |
| Tasks.TaskMngr.ExecuteIfRequired | amx/amxmodx/CTask.cpp:99-154 | the called slots and the slots afterwards are those of the specification for which the guarantees above are proved |
| Tasks.TaskMngr.StartFrame | amx/amxmodx/CTask.cpp:270-281 | over a whole frame, the called slots in order and the slots afterwards are those of the specification; tasks registered meanwhile wait for the next frame |
| Events.EntersByFlags | amx/amxmodx/CEvent.cpp:19-57 | when an event takes a message, by the flags of its registration: world, client, once, dead, alive, human, bot |
| Events.IntegerFilter | amx/amxmodx/CEvent.cpp:147-186 | a filter such as 2>-5 admits exactly the integers that it says; & admits those with a common bit |
| Events.TextFilter | amx/amxmodx/CEvent.cpp:147-186 | the same for strings, where & asks for an occurrence, and for floats |
| Events.FilterParsed | amx/amxmodx/CEvent.cpp:147-186 | a filter is cut into parameter number, operator and operand as written |
| Events.TwoFilters | amx/amxmodx/CEvent.cpp:300-323 | filters on one parameter are alternatives, filters on different ones are all needed |
| Events.EventsMngr.RegisterEvent | amx/amxmodx/CEvent.cpp:200-218 | appends an event with the given flags, or refuses the message type |
| Events.EventsMngr.RegisterFilter | amx/amxmodx/CEvent.cpp:147-186 | the loop over the digits finds the operator; the condition is appended |
| Events.FiresAsDeclared | amx/amxmodx/CEvent.cpp:221-326 | incremental filtering has the declarative meaning: an active event fires exactly if its flags pass and every parameter with conditions meets one of them |
| Events.MarkedMeansRejected | amx/amxmodx/CEvent.cpp:221-326 | after any number of parameters an event is marked exactly if it was marked before or is rejected so far |
| Events.NestedSameType | amx/amxmodx/CEvent.cpp:461-478 | when a callback sends a message of the same type, the outer message fires as declared exactly if no later active event has been rejected |
| Events.FiringMembers | amx/amxmodx/CEvent.cpp:461-478 | which events the loop calls, given the marks |
| Events.FiringBeforeReset | amx/amxmodx/CEvent.cpp:461-478 | what fires up to an event does not depend on later nested messages |
| Events.EventsMngr.ParserInit | amx/amxmodx/CEvent.cpp:221-278 | marks the events that the message cannot enter; starts the arguments with the message number; a type just behind the table is recorded as undefined |
| Events.EventsMngr.ParseValue | amx/amxmodx/CEvent.cpp:280-325 | appends the argument and marks the events whose conditions on it fail |
| Events.EventsMngr.NextParam | amx/amxmodx/CEvent.cpp:72-111 | makes room for one more argument and keeps the others |
| Events.EventsMngr.Rejects | amx/amxmodx/CEvent.cpp:300-323 | the condition loop rejects exactly if the parameter has conditions and none holds |
| Events.EventsMngr.Parse | amx/amxmodx/CEvent.cpp:221-418 | a whole message: all marks, all arguments |
| Events.EventsMngr.OpenVault | amx/amxmodx/CEvent.cpp:428-455 | the readers see the arguments of the message; a nested message gets a vault of its own |
| Events.EventsMngr.CloseVault | amx/amxmodx/CEvent.cpp:480-488 | hands the outer message's vault and position back to the readers |
| Events.SentSettles | amx/amxmodx/CEvent.cpp:221-488 | a message with all nested ones: its own callbacks are those of the events that fire, in order, each with the message's arguments; afterwards the marks of all executed types are clear and all other types are untouched |
| Events.SentFiresAsDeclared | amx/amxmodx/CEvent.cpp:221-488 | a message during which none of its own type is executed calls exactly the active events that take it and had no mark when it began |
| Events.VisitedFires | amx/amxmodx/CEvent.cpp:461-478 | the same from any event of the loop on, whatever messages the callbacks send |
| Events.CallbackSettles | amx/amxmodx/CEvent.cpp:474-477 | a callback is one call with the message's arguments and leaves the events settled by the messages it sends |
| Events.EventsMngr.Callback | amx/amxmodx/CEvent.cpp:474-477 | makes the call with the arguments that can be read and executes the messages that it sends; afterwards the same arguments can be read |
| Events.EventsMngr.VisitEvent | amx/amxmodx/CEvent.cpp:461-478 | one round of the loop: the state of the specification, with the arguments still readable |
| Events.EventsMngr.FireEvents | amx/amxmodx/CEvent.cpp:461-478 | the loop gives events, callbacks and executed messages of the specification |
| Events.EventsMngr.ExecuteEvents | amx/amxmodx/CEvent.cpp:420-488 | the same for the whole execution with the parsed arguments; after any nesting the outer arguments are visible again and the vault is restored |
| Events.EventsMngr.Send | amx/amxmodx/CEvent.cpp:221-488 | a message from first byte to last, nested ones included, gives the state of the specification |
| Events.EventsMngr.SendAll | amx/amxmodx/CEvent.cpp:420-488 | any sequence of nested messages gives the state of the specification and leaves the outer message's arguments |
| Tracing.TracksCallStack | amx/amxmodx/debugger.cpp:171-212 | if every move is a call, a return by one frame or a step in place, the tracked frames are the call stack with each frame's last instruction, in strictly decreasing order |
| Tracing.TracksOneFrameUp | amx/amxmodx/debugger.cpp:199-211 | a step is recorded in the right frame exactly if it is at most one frame up |
| Tracing.LastFrameFirst | amx/amxmodx/debugger.cpp:550-566 | the last frame is shown first |
| Tracing.Tracer.StepI | amx/amxmodx/debugger.cpp:171-212 | the used nodes are a prefix of a consistent doubly linked list with strictly decreasing frames, and are the tracked stack; nodes are made only for a depth never reached before |
| Tracing.Tracer.Begin | amx/amxmodx/debugger.cpp:173-184 | the first statement uses the first node, a recycled one if there is one |
| Tracing.Tracer.Enter | amx/amxmodx/debugger.cpp:186-203 | a deeper frame gets the next node, a recycled one if there is one |
| Tracing.Tracer.Leave | amx/amxmodx/debugger.cpp:204-209 | the last node is given back and stays in the list |
| Tracing.Tracer.SaveCip | amx/amxmodx/debugger.cpp:210-211 | the instruction is saved in the last frame |
| Tracing.Tracer.Reset | amx/amxmodx/debugger.cpp:232-245 | no node is used or lost |
| Tracing.Tracer.Clear | amx/amxmodx/debugger.cpp:214-230 | every node is deleted once, in order, and none is read after it |
| Tracing.Debugger.BeginExec | amx/amxmodx/debugger.cpp:257-270 | a new empty trace on top; the traces below are untouched |
| Tracing.Debugger.EndExec | amx/amxmodx/debugger.cpp:272-279 | the top trace is gone; the traces below are untouched |
| Tracing.Debugger.StepI | amx/amxmodx/debugger.cpp:281-299 | observes the step in the top trace only |
| Tracing.Debugger.Reset | amx/amxmodx/debugger.cpp:301-305 | abandons all traces; their nodes can be recycled |
| Tracing.Debugger.DisplayTrace | amx/amxmodx/debugger.cpp:550-566 | shows the frames of the top trace, innermost first, and stops at the unused nodes |
| Tracing.Debugger.Execute | amx/amxmodx/debugger.cpp:257-299 | the trace shown at the end of an execution is made of its own statements, whatever is nested in it, and all outer traces are as before |
| PackedStrings.PackedRoundTrip | amx/amxmodx/amx.cpp:3789-3892 | a NUL-free string stored packed is measured and read back, cut to 4*size - 1 characters when the size is limited |
| PackedStrings.SetString | amx/amxmodx/amx.cpp:3789-3844 | memory holds the stored string exactly if it is packed, empty, or begins with a character below 0x80 |
| PackedStrings.StoredMeans | amx/amxmodx/amx.cpp:3796-3834 | as much is stored as fits in size cells with its terminator, and no less |
| PackedStrings.GetString | amx/amxmodx/amx.cpp:3848-3892 | reads back the string that memory holds, cut to size - 1 characters, always terminated; behind the terminator it writes a second one exactly if the string is packed and leaves two cells of the room, and nothing else |
| PackedStrings.GetPacked | amx/amxmodx/amx.cpp:3854-3872 | the shifts over byte-swapped cells give the characters in order |
| PackedStrings.StrLen | amx/amxmodx/amx.cpp:3752-3785 | the length of the string that memory holds, in either format |
| PackedStrings.ByteLen | amx/amxmodx/amx.cpp:3767 | strlen over the swapped bytes ends in the last cell of the string |
| PackedStrings.PackedLen | amx/amxmodx/amx.cpp:3765-3777 | counting from the top of the last cell corrects the length |
| PackedStrings.HoldsOne | amx/amxmodx/amx.cpp:3752-3892 | a memory holds at most one string |
| PackedStrings.ToldApart | amx/amxmodx/amx.cpp:3836-3840 | an unpacked string with a negative first character is taken for a packed one, and never for itself |
| PackedStrings.SwapAll | amx/amxmodx/amx.cpp:3820-3823 | every cell is reversed once |
| PackedStrings.PackedNow | amx/amxmodx/amx.cpp:3804-3823 | clearing, copying and swapping give the packed format |
| Utf8.Get | amx/amxmodx/amx.cpp:3907-3981 | accepts exactly the bytes that begin with the shortest encoding of a value, gives that value and its length; else leaves the position; reads nothing behind the terminator |
| Utf8.Put | amx/amxmodx/amx.cpp:3990-4045 | stores the shortest form exactly if the value has one and it fits; else nothing; touches no other byte |
| Utf8.ReadsBack | amx/amxmodx/amx.cpp:3907-4045 | what is written for an accepted cell is read back as that cell exactly if it is not negative |
| Utf8.EncodingUnique | amx/amxmodx/amx.cpp:3907-3981 | no encoding is the beginning of another one |
| Utf8.StartsMeans | amx/amxmodx/amx.cpp:3921-3968 | every encoding has the first byte, follow-up bytes and value that the decoder computes |
| Utf8.MeansStarts | amx/amxmodx/amx.cpp:3936-3970 | a value that passes the shortest-form check has been read from its own encoding |
| Utf8.CollectedFromLow | amx/amxmodx/amx.cpp:3948-3968 | splitting into groups of six bits and collecting them are inverse |
| Utf8.LowOfCollected | amx/amxmodx/amx.cpp:3948-3968 | collecting groups of six bits and splitting them are inverse |
| Utf8.EncodingIs | amx/amxmodx/amx.cpp:3996-4036 | the six cases of the encoder are the shortest form |
| Utf8.TakeFollowUps | amx/amxmodx/amx.cpp:3946-3968 | the drop-through switch takes exactly the announced number of follow-up bytes, or finds one that is not |
| Utf8.FirstByte | amx/amxmodx/amx.cpp:3927-3943 | the table and the mask give the announced length and the value bits of the first byte |
| Utf8.Lowmark | amx/amxmodx/amx.cpp:3973-3974 | the table of low marks checks for the shortest form |
| Utf8.Check | amx/amxmodx/amx.cpp:4052-4063 | a string is accepted exactly if it is the encoding of a text, and its length in characters is returned |
| Utf8.ReadSoFar | amx/amxmodx/amx.cpp:4056-4059 | a text that the bytes encode begins with what has been read from their front |
| Commands.CmdMngr.GetCmd | amx/amxmodx/CCmd.cpp:65-102 | the remembered cursor answers as a fresh scan of the sorted list would; a negative id finds a command of that id if there is one |
| Commands.CmdMngr.Advance | amx/amxmodx/CCmd.cpp:89-101 | the scan stops at the wanted command and leaves the cursor there |
| Commands.CmdMngr.Answer | amx/amxmodx/CCmd.cpp:65-102 | for any sequence of requests, for any lists and rights in any order, every answer is that of a fresh scan |
| Commands.CmdMngr.GetCmdNum | amx/amxmodx/CCmd.cpp:104-121 | counts the eligible commands |
| Commands.CmdMngr.ClearBufferedInfo | amx/amxmodx/CCmd.cpp:255-263 | afterwards the cursor is not used |
| Commands.AgreesAfterInsert | amx/amxmodx/CCmd.cpp:123-147 | the cursor goes on agreeing with a fresh scan exactly if the new command is not eligible, or comes behind it while the remembered number is at most that of eligible commands, or comes before it while the number is larger |
| Commands.SetCmdLink | amx/amxmodx/CCmd.cpp:123-147 | the command is inserted before the first one that it belongs before, or at the end, and no other link changes |
| Commands.AgreesMeans | amx/amxmodx/CCmd.cpp:65-102 | agreeing means that all requests from the remembered number on are answered as by a fresh scan |
| Commands.LeftBehind | amx/amxmodx/CCmd.cpp:89-101 | the cursor agrees exactly if the remembered number is that of the eligible commands before it, or none are left and the number is not smaller |
| Commands.CmdMngr.Insert | amx/amxmodx/CCmd.cpp:56-63 | the sorted list stays sorted; the other lists are untouched; whether the cursor still agrees, for every state of it |
| Commands.InsertKeepsSorted | amx/amxmodx/CCmd.cpp:127-140 | insertion there keeps the list sorted |
| Commands.CompareTransitive | amx/amxmodx/CCmd.cpp:131-133 | the order of commands is transitive |
| Commands.AccessMeans | amx/amxmodx/CCmd.h:60 | a command without rights is for everyone, any other one for whoever has one of its rights |
| Commands.SelectConcat | amx/amxmodx/CCmd.cpp:89-99 | the eligible commands of a list are those of its parts |
| DataPack.CDataPack.RoundTrip | amx/amxmodx/CDataPack.cpp:52-340 | any sequence of typed writes to a cleared pack is read back after a reset, through any growth of the buffer |
| DataPack.CDataPack.CheckSize | amx/amxmodx/CDataPack.cpp:52-67 | there is room behind the cursor and what was written is kept |
| DataPack.CDataPack.PackCell | amx/amxmodx/CDataPack.cpp:96-110 | one cell behind all items written before, which are kept whatever the buffer does |
| DataPack.CDataPack.PackFloat | amx/amxmodx/CDataPack.cpp:112-126 | one float behind all items written before |
| DataPack.CDataPack.PackString | amx/amxmodx/CDataPack.cpp:128-147 | one string behind all items written before |
| DataPack.CDataPack.CreateMemory | amx/amxmodx/CDataPack.cpp:74-94 | appends a block and gives its position and address |
| DataPack.CDataPack.Fill | amx/amxmodx/CDataPack.cpp:83-88 | filling in the block changes that item only |
| DataPack.CDataPack.Reset | amx/amxmodx/CDataPack.cpp:149-152 | the cursor is before the first item |
| DataPack.CDataPack.ResetPack | amx/amxmodx/datapacks.cpp:150-169 | the cursor is before the first item, and nothing is left if the pack is to be cleared |
| DataPack.CDataPack.CanReadCell | amx/amxmodx/CDataPack.cpp:170-186 | true exactly if the next item is a cell |
| DataPack.CDataPack.ReadCell | amx/amxmodx/CDataPack.cpp:188-201 | gives the next item and moves behind it, or leaves the cursor |
| DataPack.CDataPack.CanReadFloat | amx/amxmodx/CDataPack.cpp:203-219 | true exactly if the next item is a float |
| DataPack.CDataPack.ReadFloat | amx/amxmodx/CDataPack.cpp:221-234 | gives the next item and moves behind it, or leaves the cursor |
| DataPack.CDataPack.CanReadString | amx/amxmodx/CDataPack.cpp:241-266 | true exactly if the next item is a string |
| DataPack.CDataPack.ReadString | amx/amxmodx/CDataPack.cpp:268-288 | gives the next item and moves behind it, or leaves the cursor |
| DataPack.CDataPack.CanReadMemory | amx/amxmodx/CDataPack.cpp:295-318 | true exactly if the next item is a block |
| DataPack.CDataPack.ReadMemory | amx/amxmodx/CDataPack.cpp:320-340 | gives the next item and moves behind it, or leaves the cursor |
| DataPack.ItemAt | amx/amxmodx/CDataPack.cpp:74-147 | an item lies at the offset that the items in front of it take |
| DataPack.ItemBytes | amx/amxmodx/CDataPack.cpp:170-340 | the bytes at the cursor tell type, length and value of the item |

## Left out

Weaker than the source, by member:

- Compact.Expand: where an assertion of the loader fails, only that it fails; a release build, which has no assertions, would go on and overwrite slots of the ring.
- Relocation.BrowseRelocate: the code must be readable, that is, no operand may be cut off by the end of the code, and the byte counts of FILE and SYMBOL must be whole cells; the source reads past the end, or at odd addresses, otherwise.
- ControlFlow.LandsOnBoundary: not for RET, RETN, CALL.pri, JUMP.pri and SCTRL, whose next address comes from a register or the stack; for RETN that answers a CALL, `CallTrees.RunKeepsBoundaries` has it.
- CallTrees.RunKeepsBoundaries: runs with RET, CALL.pri, JUMP.pri or SCTRL are left out, because their targets are data; the discipline is that of `CallingConvention.CallRestores`.
- Simulation.OptimizerPreservesMeaning: every state of the plain run must be at an instruction boundary with bound natives that find their parameters (`OnTrack`), because arbitrary code can jump anywhere and call natives without parameters.
- Peephole.ReplacedInCode: for the rules of `SMUL`, `LIDX.B`, `IDXADDR.B` and `PUSH.R` there is no lemma, because the model leaves these instructions open; how the compiler finds a sequence in its output is not modelled; a shift by two bits is assumed to multiply by four.
- PublicCalls.PublicReturns: for natives that call nothing and a disciplined function, as in `CallingConvention.CallRestores`.
- CallingConvention.CallRestores: that bodies return with the stack at their frame and keep the saved cells (`Disciplined`) is what the compiler guarantees, not what the machine checks.
- HostCalls.Amx.Exec: runs are bounded by `fuel`, and a run that exhausts it only says so; the continuation of a sleeping machine is not modelled.
- ForwardCalls.ExecuteOne: when an allotment fails, or is granted without room, the source goes on with an undefined address, and the model stops; two host parameters that overlap are not represented.
- ForwardCalls.EntryDelivers: a text of FP_STRINGEX must leave room for its terminator in 128 cells.
- CallFunc.Globals.End: a failing allotment ends as `Undefined` for the same reason; the return value is the one of HALT, and 0 where the run does not get there, while the variable of the source is not initialized.
- CallFunc.Globals.PushReference: when an address is pushed again, the size and the copy-back flag of the first push decide, as in the source.
- CallFunc.Globals.Begin: `callfunc_begin_i` makes its checks in another order and is not modelled; nor is `callfunc_push_str`.
- ForwardIds.Play: clients unregister and execute only ids that they hold and execute none recursively.
- Tasks.RegisteredTask: exact numbers in place of single-precision time; no parameters of the called function.
- Events.FilterParsed: `atoi` does not skip white space and does not wrap around, and `atof` is any function.
- Events.EventsMngr.ExecuteEvents: registration of events and changes of their state during callbacks are not modelled; nested messages are bounded by `fuel`, at whose end callbacks send nothing.
- Tracing.Tracer.StepI: a step above the first frame is excluded; the source dereferences a null pointer there.
- PackedStrings.SetString: a size of 0 is excluded; the source writes in front of the memory there.
- Utf8.Put: the caller's claim of room, `maxchars`, must be true.
- Commands.CmdMngr.Answer: lists and states of plugins do not change between the requests.
- DataPack.CDataPack.RoundTrip: writing in the middle of existing data and `SetPosition` are not modelled; sizes do not overflow.

Not modelled:

- The assembler, just-in-time and label-threaded interpreters, big-endian machines, cells of 16 and 64 bits: the same meaning with platform detail.
- Bit operations, shifts, multiplications, divisions and block copies of the machine: parameters of the environment (`alu`, `other`), because no result here depends on their values.
- The rest of the compiler.
- BREAK and its debug hook, binary logging, and the logging of errors.
- IEEE rounding: the float operations are uninterpreted.
- The bytes behind `getString`, the reader of strings that are copied back from a forward: any function of the callee's memory.
- Wide-character strings, and `amx_UTF8Len`. The UTF-8 functions are excluded from the shipped build by `AMX_ANSIONLY`.
- The forward that a scheduled task owns, and when it is unregistered.
- The conversions of `getArgInteger`, `getArgFloat` and `getArgString`.
- Multi-plugin forward ids, which are never recycled; prefixes and the unsorted lists of commands, except for the insertion at the end.
- `RegisteredMessage::RemoveHook`, which passes a forward id where an index is expected.
- Text parsers, gamedata, containers, menus, cvars, files, the engine natives and module loading: I/O, calls into other programs, or easy members only.
