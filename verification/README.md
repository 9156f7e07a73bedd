# The CV8 engine and its tools, modelled and proved

This project models the parts of RelF whose correctness is not visible from one function at a time,
and proves what they are for. `dafny verify dfyconfig.toml` checks all of it.

**The byte-code engine** (`engine/cv8.c`). `Instructions` decodes CV8's byte stream and gives every
instruction one meaning, on cells of 32 or 64 bits. Every machine here is built on that table, so two
machines can only disagree in how they keep their state:

- `Engine` is the C engine, handler by handler: `ip`, `rp`, `dsp`, the cached `tos`, flat memory and the
  locals save stack, updated in place. Over every run it is the plain machine of `PlainMachine`, which
  keeps both stacks in memory, as long as no load reads a cell that the engine holds only in a register.
- `StackMachine` keeps the stacks as sequences. Where it has a meaning the flat machine does the same;
  so the stacks never meet, nothing is stored below the data guard page, and a runaway push or recursion
  traps with the rest of memory as it was (`EngineRuns`). `Operations` and `BitLaws` say what the opcodes
  leave in it, in numbers, bits and stack pictures, without naming the table.
- On it are proved: a call and an inlined copy of the called body are the same (`Inlining`), given a
  check of the words called (`CheckedCalls`) that is exact on words without branches (`StraightWords`),
  and what the compiler lays is such a copy (`InlineCompiler`); one image at two load addresses runs in
  lockstep (`Relocation`, `RelocatedRuns`); `?DO ... LOOP` runs its body exactly the modular distance (`Loops`); shallow-bound
  locals are deep-bound ones (`Locals`); double-cell arithmetic composes (`DoubleCells`).

**Around the engine.** `Output` and `Terminal`: buffered terminal output against writing each byte at
once, for every way `write` may answer. `Signals`: signals caught into flags, delivered between any two
steps and inside each other's handlers.

**The image tools.** `Fusion` (`tools/superinst.py`): fusing adjacent instructions, and what that saves.
`BodyDecoder` and `StructuredBodies` (`tools/image-audit.py`): finding the end of a body that carries no
length; `DecodersAgree`: that the tools and the engine read the same bytes alike. `Dictionary`: words laid with backward-read links, and the walk that finds them again.
`DeadWords` (`tools/dead-words.py`): the reachability search, its chains, and deleting; `References`: what
it reads, said of the sources' own words; `ForthReading`:
what the Forth compiler makes of the sources before and after.

**The kernels.** `Fannkuch` and `Sieve`: the permutation counter, the flip loop and the two sieves of
`bench/langs` and `tests/native/bench`.

## What the proofs brought to light

Where a promise does not hold of the code as it is, the code is modelled as it is; a lemma gives a case
in which the promise fails and another says exactly when it holds.

- *Inlining.* A copied body may call a word unless that word's first opcode is `R>` or `R@`
  (`forth/kernel.4:1527-1533`). A word that takes its return address later in its body passes, and then called
  and copied bodies return to different places (`FirstOpcodeIsNotEnough` for every such straight word, and
  a concrete image in `EscapingBodyAccepted`). What inlining needs is that no word called from the body
  takes or looks at a return cell it has not pushed. `CheckedCalls` makes that a check of the code, by
  the number of cells pushed at each instruction, and proves it enough for any run; on words without
  branches or calls that leave no cell of their own it is also necessary. `INL-OP` also takes LIT64 to be nine
  bytes in a 4-byte image, where the engine reads four after the opcode (`LengthsAgree`); no such image
  holds one.
- *Fusion.* To the tool everything that is no branch, call or EXIT is an `op`, and so are `EXECUTE`,
  `(LOOP)`, `(?DO)`, and `LSAVE` and `LRESTORE`, whose failure calls a handler; none of these is always
  followed by the next instruction. With `(LOOP)` first, the saving is overstated by the times a loop ends
  (`SavingCounted` says exactly when it is right); with a first half that enters a body, the second half is
  lost (`DispatchMeets`, `ExecuteFirstLosesSecond`).
- *Output.* `t_flush` empties the buffer even when `full_write` failed; neither `DUP2` onto descriptor
  1, nor closing it, nor the `OPEN-FILE` that then gets its number flushes, and neither do the exits of a
  locals failure or a bad opcode. Output is complete at a flush
  exactly when each `write` of a flush took at least one byte, at those exits exactly when besides nothing
  was typed since the last flush, and in the right file exactly when no flush found a byte typed before
  the descriptor was moved.
- *Signals.* `SIGNALS-PENDING` takes a flag down before it pushes the number; a signal thrown as -28 in
  between loses it, and so does the push itself when the data stack is full. `SIGACTION` to default or
  ignore clears the flag before it changes the handler; a throw in between loses what had come, though the
  signal is still to be caught. And handlers do not block each other: a throw from one that came inside
  another, before that had stored its flag, loses the other's signal (`ThrowBuriesHandler`). Those are the
  only ways to lose one (`LostOnlyByRestart`). A signal set to default or ignore can still be
  answered once, in two ways and no others (`StaleExactly`): `SIGACTION` clears the flag before it
  changes the handler, so a signal caught in between leaves it up; and an action of 5 or more installs
  the default but clears no flag.
- *Deleting dead words.* The tool knows a line by the first name it defines. A line of several variables
  (`shell/tree.4:834`, `shell/shell.4:7031`) is deleted when only the first is dead, and the others with
  it (`SecondNameLost`); deleting keeps what the Forth compiler reads exactly when no survivor uses such a
  name, or uses a deleted definition in a word the tool does not look up (`DeletingKeepsForth`). One such
  word is in a top-level `' X IS Y` whose `Y` is in no file read: the line is left behind when `X` is
  deleted (`DanglesExactly`).
- *Sieves.* The odds-only sieve is one less than the byte sieve only from `SIZE = 1` on; with no flags
  both count none.

Where the documents and the code differ the code was followed: `docs/CV8-LEDGER.md:156-158` allows four
instructions and 12 bytes in an inlined body, `forth/kernel.4` three and six; `docs/CV8.md` sections 3 to
5 describe folded returns and format version 5, which the engine no longer has.

## Model

| member | source | states |
|---|---|---|
| Instructions.DecodeFits | engine/cv8.c:897-963 | Every instruction decoded from any ten bytes has cell-sized operands: branch targets, call targets, slots and literals are reduced to the cell width. |
| Instructions.DecodeReach | engine/cv8.c:897-1011 | What is decoded depends on no byte but the instruction's own and, for the two loop opcodes, the branch opcode behind them. |
| Instructions.ActFits | engine/cv8.c:910-1091 | Cells in, cells out: no instruction, whatever its operands, makes a stack, memory or save-stack value wider than a cell. |
| BitLaws.LogicBits | engine/cv8.c:1070-1072 | Bit k of AND, OR and XOR of two numbers of any width is set exactly if both, either, or just one of theirs is. |
| BitLaws.SameBits | engine/cv8.c:1070-1072 | So those bits leave no freedom: cells with the same bits are the same. |
| Operations.LogicOps | engine/cv8.c:1070-1072 | The opcodes 0x0E to 0x10 replace two cells by the one whose bits are those of their conjunction, disjunction and difference. |
| Operations.ShiftOps | engine/cv8.c:1083-1084 | LSHIFT and RSHIFT by less than the cell width move every bit up or down by the count; zeros come in. |
| Operations.CompareOps | engine/cv8.c:1076-1081 | =, <>, U<, < and > leave all bits set or none: < and > by the numbers the cells stand for in two's complement, U< by the cells. |
| Operations.TestOps | engine/cv8.c:950-963 | 0=, 0< and EQI do, of the number the cell stands for; EQI's byte is signed. |
| Operations.SumOps | engine/cv8.c:951 | + and - are the sum and difference modulo 2^w. |
| Operations.AddOps | engine/cv8.c:957-962 | 1+, 1-, CELL+ and ADDI add 1, -1, a cell's size and the signed byte, modulo 2^w. |
| Operations.CellsOp | engine/cv8.c:959 | CELLS multiplies by a cell's size, modulo 2^w. |
| Operations.NegateOp | engine/cv8.c:1082 | NEGATE leaves the additive inverse modulo 2^w. |
| Operations.StackOps | engine/opcodes.tab:39-43 | DROP, DUP, SWAP, ROT, OVER, 2DUP, 2DROP and ?DUP leave the Forth stack pictures. |
| Operations.LiteralOps | engine/cv8.c:912-933 | The literal opcodes push the number their bytes spell, little-endian, LIT32's signed. |
| Operations.StoreCellOp | engine/cv8.c:1069 | ! leaves the cell at its address, and every byte outside it as it was. |
| Operations.PlusStoreOp | engine/cv8.c:1039-1043 | +! leaves the sum modulo 2^w there. |
| Operations.StoreByte | engine/cv8.c:1068 | C! leaves the low byte there and changes no other. |
| Operations.FetchCells | engine/cv8.c:1066-1067 | @ leaves the cell at its address, @XT that with the image base added. |
| Operations.FetchBytes | engine/cv8.c:961 | C@ leaves the byte at its address, COUNT that over the next address. |
| Operations.VarStoreOps | engine/cv8.c:934-946 | VAR! and L! store the top cell, and LZERO zero, where the slot operand points, and nowhere else. |
| Operations.NearBranch | engine/cv8.c:1054-1060 | BRANCH8 goes by its signed byte from the operand, ?BRANCH8 just when the top cell is 0. |
| Operations.FarBranch | engine/cv8.c:1054-1060 | BRANCH and ?BRANCH do with two bytes. |
| Operations.DataWord | engine/cv8.c:1044 | DOVAR pushes the first cell boundary that leaves three bytes behind its opcode, and returns. |
| Operations.DoesWord | engine/cv8.c:1045-1053 | DODOES leaves the first cell boundary behind its operand on the return stack and enters the tail the operand names. |
| PlainMeaning.CarryByCompare | engine/cv8.c:1087-1090 | D+'s comparison of the low half with an addend is exactly the carry, so its two halves are those of the full sum. |
| DoubleCells.UmStarExact | engine/cv8.c:494-512 | UM* leaves the two halves of the exact product. |
| DoubleCells.DPlusAdds | engine/cv8.c:1087-1090 | D+ is addition mod 2^(2w). |
| DoubleCells.UmDivExact | engine/cv8.c:500-519 | UM/MOD's quotient times divisor plus remainder is the dividend if and only if the dividend's high cell is below the divisor. |
| DoubleCells.MultiplyAddDivide | engine/cv8.c:1085-1090 | For all u, v, r with r < v at either width, UM*, then adding r with D+, then UM/MOD by v leaves exactly r and u. |
| Engine.VirtualMachine.Boot | engine/cv8.c:1798-1812 | The state main() sets up stands for the plain machine with the image base on its data stack. |
| Engine.VirtualMachine.PushT | engine/cv8.c:845-847 | PUSHT stores the cached cell one cell down, or traps without touching memory; the new value is cached. |
| Engine.VirtualMachine.PopT | engine/cv8.c:848 | POPT fills the cache from memory and raises dsp. |
| Engine.VirtualMachine.Spill | engine/cv8.c:851 | SPILL stores the cached cell, or traps without touching memory. |
| Engine.VirtualMachine.Push | engine/cv8.c:236-238 | PUSH stores a cell below dsp, or traps without touching memory. |
| Engine.VirtualMachine.RPush | engine/cv8.c:239-241 | RPUSH stores a cell below rp, or traps without touching memory. |
| Engine.VirtualMachine.Pushing | engine/cv8.c:912-934 | The handlers that push one cell do what the plain machine does, and on a trap have changed only stack bytes. |
| Engine.VirtualMachine.PushingTwo | engine/cv8.c:955 | 2DUP does what the plain machine does. |
| Engine.VirtualMachine.Counting | engine/cv8.c:961 | COUNT does what the plain machine does. |
| Engine.VirtualMachine.UnaryOp | engine/cv8.c:950-963 | One-operand arithmetic on the cached cell computes its table value; the rows of `Operations` say what number that is. |
| Engine.VirtualMachine.BinaryOp | engine/cv8.c:951-954 | Two-operand arithmetic on memory and cached cell computes its table value and shortens the stack; the rows of `Operations` say what number that is. |
| Engine.VirtualMachine.Replacing | engine/cv8.c:1066-1084 | Arithmetic and fetches agree with the plain machine, including traps on guard pages. |
| Engine.VirtualMachine.Popping | engine/cv8.c:1060-1069 | DROP, 2DROP, ?BRANCH, stores and +! agree with the plain machine even when they store into live stack cells. |
| Engine.VirtualMachine.Permuting | engine/cv8.c:1063-1064 | SWAP and ROT agree with the plain machine. |
| Engine.VirtualMachine.SpillingPush | engine/cv8.c:914-916 | LIT32, LIT64, SP@ and RP@ agree with the plain machine; SP@ gives the address of the old top, which SPILL has stored. |
| Engine.VirtualMachine.UMul | engine/cv8.c:494-512 | umul leaves the product's halves in the two top cells. |
| Engine.VirtualMachine.Multiplying | engine/cv8.c:1085 | UM* agrees with the plain machine. |
| Engine.VirtualMachine.Dividing | engine/cv8.c:1086 | UM/MOD agrees with the plain machine; a zero divisor traps with -10. |
| Engine.VirtualMachine.DAdd | engine/cv8.c:1087-1090 | The carry computed by comparison gives the double sum's two halves. |
| Engine.VirtualMachine.DoubleAdding | engine/cv8.c:1087-1091 | D+ agrees with the plain machine. |
| Engine.VirtualMachine.Repointing | engine/cv8.c:1107-1109 | SP! and RP! agree with the plain machine for pointers into the stacks. |
| Engine.VirtualMachine.Locals | engine/cv8.c:936-946 | LSAVE, LRESTORE and LZERO agree with the plain machine. |
| Engine.VirtualMachine.LocalsFailed | engine/cv8.c:942-944 | A failing LSAVE or LRESTORE pushes its code and calls the word at offset 8, or exits with 70. |
| Engine.VirtualMachine.ReturnPushing | engine/cv8.c:1025-1053 | Calls, EXECUTE, DODOES and >R agree with the plain machine; a full return stack traps with -5. |
| Engine.VirtualMachine.Looping | engine/cv8.c:990-1000 | (LOOP) agrees with the plain machine. |
| Engine.VirtualMachine.QueryDo | engine/cv8.c:1001-1011 | (?DO) agrees with the plain machine. |
| Engine.VirtualMachine.FromReturn | engine/cv8.c:1044 | R> and DOVAR agree with the plain machine. |
| Engine.VirtualMachine.Returning | engine/cv8.c:910-911 | NOOP, branches and EXIT agree with the plain machine. |
| Engine.VirtualMachine.Next | engine/cv8.c:897-908 | One dispatch of the engine is one step of the plain machine whenever no dead cell is loaded, and a trap has changed only stack bytes. |
| Engine.VirtualMachine.Execute | engine/cv8.c:840-1091 | Over any number of dispatches the engine with its cached top of stack is the plain memory-stack machine; a trap leaves memory outside the stacks as some earlier step had it. |
| StackMachine.StepSimulates | engine/cv8.c:843-1091 | Wherever the machine with sequences for stacks has a meaning, the flat machine does the same and holds exactly those stacks. |
| StackMachine.RunSimulates | engine/cv8.c:843-1091 | The same over whole runs. |
| StackMachine.MeaningIsSafe | engine/cv8.c:843-852 | Wherever the sequence machine has a meaning, no load reads a cell the engine keeps only in a register. |
| StackMachine.StepConfined | engine/cv8.c:424-463 | One step keeps both stacks in their regions, and changes no other memory unless it stores through an address. |
| EngineRuns.BootLays | engine/cv8.c:1798-1812 | The machine main() starts is the sequence machine with only the base on its data stack. |
| EngineRuns.RunConfined | engine/cv8.c:424-463 | Over every run the two stacks stay in their regions, apart from each other and above the data guard page; without stores the rest of memory is unchanged. |
| EngineRuns.Follow | engine/cv8.c:840-1091 | The engine runs as the sequence machine does; a run that ends in a trap leaves, outside the stacks' regions, exactly the memory of the sequence machine's last state, and without stores what was there at the start. |
| EngineRuns.RunawayRecursion | engine/cv8.c:418-448 | A word that calls itself fills the return stack to its last cell and is then stopped with -5, memory as it was. |
| EngineRuns.RunawayPush | engine/cv8.c:418-444 | A loop that pushes fills the data stack to its last cell and is then stopped with -3, memory as it was. |
| Inlining.InlinableMeaning | docs/CV8-LEDGER.md:156-169 | What an instruction allowed in a copied body does depends neither on its address nor on the return stack. |
| Inlining.Lockstep | docs/CV8-LEDGER.md:156-169 | Called body and inlined copy stay in lockstep, through calls to return-stack-disciplined words, one return-stack cell apart, as long as no store changes the body, its EXIT or the copy; data between them may change. |
| Inlining.InliningPreserves | docs/CV8-LEDGER.md:156-169 | From any state, running the call reaches the address behind it exactly as running the copy reaches the copy's end: same data stack, return stack, memory and saved locals. |
| Inlining.InliningReflects | docs/CV8-LEDGER.md:156-169 | And the other way about: where the copy reaches its end with a return cell to spare at each step, the call comes back with the same stacks, memory and saved locals. |
| CheckedCalls.CheckedRun | forth/kernel.4:1528-1577 | A check of the code alone - every instruction of the words called is given the number of return cells its word has pushed there, and takes no more - implies the return-stack discipline at each step of any run that keeps that code. |
| CheckedCalls.FramelessPasses | forth/kernel.4:1528-1553 | Code that leaves the return stack to calls and returns passes the check, whatever its branches, loops of them, calls and locals. |
| CheckedCalls.CheckedInlines | forth/kernel.4:1528-1592 | So for a body whose called words pass the check, calls within calls, loops, branches and locals included, the inlined copy does what the call does. |
| CheckedCalls.CheckedReflects | forth/kernel.4:1528-1592 | And the call does what the copy does, where return cells are free. |
| StraightWords.StraightWordPasses | forth/kernel.4:1527-1533 | A word without branches or calls passes the check, with some depths, if and only if it looks at no return cell under its own frame and its EXIT finds none of its own. |
| StraightWords.StraightCalleeSees | forth/kernel.4:1527-1533 | Where such a word first looks under its frame, called body and copy part: one has the return address in the body on its data stack, the other that in the copy. |
| StraightWords.StraightCalleeParts | forth/kernel.4:1527-1533 | Called from body and copy, such a word returns to where it was called, the return stacks as they were, if and only if it takes no cell from under its frame; else each goes on at the first cell not taken. |
| InlineCompiler.InlineLenAccepts | forth/kernel.4:1568-1577 | A positive length from INLINE-LEN means a body of accepted instructions, at most six bytes, that ends at an EXIT. |
| InlineCompiler.InlOpExactly | forth/kernel.4:1528-1553 | INL-OP accepts an instruction if and only if it is no branch, return-stack word, local, data word or NOOP, no unknown opcode but an escaped one, and if a call, to a word that does not begin with R> or R@; and gives its length. |
| InlineCompiler.InlineLenExactly | forth/kernel.4:1568-1577 | INLINE-LEN accepts a body if and only if one to three such instructions, none of them LIT64, fill it, it has at most six bytes, and its EXIT comes next. |
| InlineCompiler.SlotRoundTrip | forth/kernel.4:1416-1428 | Every slot operand SLOT, lays, near or far, is read back by the engine as the same address. |
| InlineCompiler.SlotBytesExactly | forth/kernel.4:1416-1428 | It takes two bytes exactly where the distance fits 15 signed bits, three where it fits 23, and gives up beyond. |
| InlineCompiler.SlotDecodes | forth/kernel.4:1545-1553 | A VAR@ or VAR! laid again elsewhere names the same variable. |
| InlineCompiler.CopyOneDecodes | forth/kernel.4:1579-1592 | One instruction laid by INLINE-COPY decodes as the one it was copied from. |
| InlineCompiler.InlineCopyCopies | forth/kernel.4:1579-1592 | What INLINE-COPY lays for an accepted body is a copy in the sense the inlining theorem needs. |
| InlineCompiler.CompiledSite | forth/kernel.4:1568-1592 | A call to a word INLINE-LEN accepts and the copy laid in its place satisfy the inlining theorem's premises. |
| InlineCompiler.FirstOpcodeIsNotEnough | forth/kernel.4:1527-1533 | For every straight word that begins with neither R> nor R@ and takes cells from under its frame: a body calling it is accepted, the word passes no check, and the copy leaves that many cells of the word it is in gone; taking one, the call comes back to its site and the copy to the caller's caller. |
| Inlining.StraightInlines | docs/CV8-LEDGER.md:156-169 | For a body that calls nothing the same holds of any state from which the called body runs without a trap and without storing into the body or the copy. |
| InlineCompiler.EscapingBodyAccepted | forth/kernel.4:1527-1533 | An image of three short words in which that happens: INLINE-LEN accepts the body, and the two runs end in different places. |
| InlineCompiler.DupInlines | forth/kernel.4:1568-1592 | The smallest case, on a concrete image: `: B DUP ;` is accepted, the theorem's premises hold, and the copy does what the call does. |
| Relocation.AlignMoves | engine/cv8.c:1044-1053 | Rounding up to a cell commutes with moving the image, for every address, if and only if the bases differ by whole cells. |
| Relocation.DecodeMoves | engine/cv8.c:902-935 | The same bytes at the moved address decode to the instruction with every address moved. |
| Relocation.MaskMoves | forth/kernel.4:280-283 | AND of an address with a mask that rounds down to at most a cell, as in ALIGNED, moves with the image; with a mask of the bits below, as in ALIGN, it is the same at both bases. |
| Relocation.ActMoves | engine/cv8.c:910-1091 | Every instruction on moved operands has the moved effect. |
| Relocation.NumbersServe | engine/cv8.c:910-1091 | What keeps the kinds apart, and so the lockstep going: integers may be computed with, tested and counted; |
| Relocation.EitherServes | engine/cv8.c:910-1091 | either kind may be copied, ordered, saved and called with; |
| Relocation.AddressesServe | engine/cv8.c:910-1091 | memory may be read and written at addresses, and control go to them; |
| Relocation.AddressArithmetic | engine/cv8.c:951-952 | an integer may be added to an address or taken off it, and two addresses subtracted and compared. |
| RelocatedRuns.StepMoves | engine/cv8.c:902-1091 | One step of the two runs keeps them moved copies of each other. |
| RelocatedRuns.PositionIndependent | engine/cv8.c:902-1053 | The same image at two cell-aligned bases runs in lockstep: same offsets, every stack, saved and memory cell equal or shifted by the difference, same traps. |
| RelocatedRuns.BootTwins | engine/cv8.c:699-706 | The two loaded images start as moved copies. |
| RelocatedRuns.ImageRunsAnywhere | engine/cv8.c:699-706 | From main() on, an image loaded at either of two cell-aligned bases runs the same. |
| Loops.LoopStep | engine/cv8.c:990-1000 | (LOOP) and the branch behind it go back to the body with the counter raised, or past the branch with both cells dropped. |
| Loops.RoundsMeet | engine/cv8.c:990-1000 | Counting up from start with wrap-around first meets limit after exactly (limit - start) mod 2^w rounds. |
| Loops.Iterates | engine/cv8.c:990-1011 | At the j-th round I is start + j, wrapped. |
| Loops.Completes | engine/cv8.c:990-1011 | From the body's first beginning the run reaches the end of the loop with the return stack restored. |
| Loops.DoLoop | engine/cv8.c:990-1011 | limit start ?DO body LOOP runs any return-stack-neutral body exactly (limit - start) mod 2^w times, not at all when they are equal, and ends behind the back-branch with the return stack restored. |
| Loops.EmptyLoop | engine/cv8.c:990-1011 | A loop without a body takes two dispatches for each of its (limit - start) mod 2^w rounds and changes nothing. |
| Locals.BindSaved | engine/cv8.c:936-938 | LSAVE opens a binding with the slot's visible value and changes no visible value. |
| Locals.UnbindSaved | engine/cv8.c:939-941 | LRESTORE brings back what was visible under the innermost binding. |
| Locals.ShallowIsDeep | engine/cv8.c:936-946 | Over every run the engine's shallow binding is the environment machine's deep binding: at each step every slot reads as its innermost binding. |
| Locals.DeepFollows | engine/cv8.c:936-946 | The environment machine has a meaning wherever the engine's has one and the program keeps to whole slots where they are bound: no code in them, no fetch or store of a part, and LRESTORE names the innermost. |
| Locals.CallerUnchanged | docs/CV8.md:421-441 | Whatever runs while a word's binding is open, its caller finds the slot's value unchanged once it is closed. |
| Locals.LocalsDivert | engine/cv8.c:936-944 | A full or empty save stack diverts with 1 or 2, before any saved cell or slot is touched. |
| Locals.DepthBounded | engine/cv8.c:575-577 | The save stack never holds more than 4096 cells. |
| Fusion.TargetStartsGroup | tools/superinst.py:149-150 | A branch target is never in the middle of a fused pair. |
| Fusion.FusesExactly | tools/superinst.py:203-210 | The groups cover the body in order, branches relaid to the group at their target; a group is a pair if and only if its first instruction is no branch, call or EXIT, its second is no call and no branch's target, and the pair is chosen. |
| Fusion.SecondStartsNone | tools/superinst.py:205-210 | No fused pair starts at another's second half. |
| Fusion.DispatchMeets | tools/superinst.py:13-19 | A dispatch of the fused program does what one or two of the plain one do if and only if it is not of a pair whose first half enters a body. |
| Fusion.FusedRunMeets | tools/superinst.py:13-19 | Every run that ends, of a program of many bodies with calls, in which no fused first half enters a body, ends the same fused; the dispatches saved are the pairs run through. |
| Fusion.PlainRunMeets | tools/superinst.py:13-19 | On the same condition the fused program makes no run end that did not. |
| Fusion.SumIsFirsts | tools/superinst.py:200-210 | With a run's own counts the tool's sum over sites is the number of dispatches of first halves. |
| Fusion.SavingCounted | tools/superinst.py:200-213 | The tool's figure is the dispatches really saved if and only if in the plain run each dispatch of a fused first half neither halts nor, being (LOOP), (?DO), EXECUTE, LSAVE or LRESTORE, goes elsewhere than to the second. |
| Fusion.SequentialSaved | tools/superinst.py:200-213 | If all fused first halves are sequential, whatever the run, it keeps its result fused and the figure is right whenever it returns. |
| Fusion.HalvesMeet | tools/superinst.py:13-19 | A fused site's two halves are dispatched equally often in every run that returns, if its first is sequential. |
| Fusion.FuseInSimulation | tools/superinst.py:200-210 | The loop over the bodies computes that sum, and counts as many sites as fusing takes instructions out. |
| Fusion.LoopFirstOvercounted | tools/superinst.py:109-136 | (LOOP) is an op to the tool: fused with the branch behind it a loop of one round saves nothing and is counted as one. |
| Fusion.StrayMisplaces | tools/superinst.py:109-136 | Wherever a fused first half enters a body - EXECUTE, or LSAVE or LRESTORE that fail, all of them ops to the tool - plain and fused run come apart at once. |
| Fusion.ExecuteFirstLosesSecond | tools/superinst.py:109-136 | A whole run in which they end with different results. |
| BodyDecoder.EncodeReads | tools/image-audit.py:65-122 | Every instruction the compilers lay - near and far calls with inline operands, slots, branches, literals - is read back wherever it lies. |
| DecodersAgree.LengthsAgree | tools/image-audit.py:64-124 | Every instruction the tool reads ends where the engine's does, inline operands apart, if and only if it is neither DODOES nor, in a 4-byte image, LIT64. |
| DecodersAgree.CallsAgree | tools/image-audit.py:64-124 | Tool and engine read the same call: its target and its length. |
| DecodersAgree.JumpsAgree | tools/image-audit.py:64-124 | They read the same branch: conditional or not, to the same address. |
| DecodersAgree.SlotsAgree | tools/image-audit.py:64-124 | They read the same slot: near or far, the same variable. |
| BodyDecoder.DecodeBody | tools/image-audit.py:64-124 | The decoding loop, with its far_target, computes the scan the lemmas are about. |
| BodyDecoder.ScanLaid | tools/image-audit.py:64-124 | Laid instructions are listed one by one until an EXIT that no forward branch reaches past. |
| BodyDecoder.BodyEnds | tools/image-audit.py:64-124 | The decoder finds exactly the laid instructions and stops exactly behind the final EXIT if and only if each earlier EXIT is reached past and the last is not (or the next header is right there). |
| StructuredBodies.SizeLaid | docs/CV8.md:160-176 | Every control structure is laid in exactly the bytes its branches were computed for. |
| StructuredBodies.Covered | tools/image-audit.py:76-85 | Code that a forward branch reaches past never stops the decoder. |
| StructuredBodies.Uncovered | tools/image-audit.py:76-85 | Elsewhere the EXITs that stop it are exactly those not under a conditional or in a counted loop. |
| StructuredBodies.StructuredBodyEnds | tools/image-audit.py:64-124 | For every structured body, wherever it lies, the decoder recovers exactly what was laid and stops exactly behind the final EXIT if and only if every early EXIT is under a conditional or in a counted loop. |
| StructuredBodies.BranchesStayInside | docs/CV8.md:160-171 | Every branch, LEAVE included, leads to the start of an instruction of the same body. |
| Dictionary.LinkReads | forth/kernel.4:1339-1349 | The link HEADER lays, sized by a bound on the distance, is read back as the previous name whichever length was chosen. |
| Dictionary.WalkFindsThread | tools/image-audit.py:27-34 | From each head the walk comes by exactly that thread's words, newest first. |
| Dictionary.Walk | tools/image-audit.py:26-34 | The walk over all heads ends and records each name it comes by. |
| Dictionary.WalkFindsAll | tools/image-audit.py:26-34 | For any laid dictionary every link leads back and the walk comes by every word exactly once. |
| Dictionary.SortedIsLaid | tools/image-audit.py:35 | Sorting what was found can only give the names in the order they were laid. |
| Dictionary.Spans | tools/image-audit.py:35-42 | The loop over the sorted names computes each body's begin and end. |
| Dictionary.DictionaryRoundTrip | docs/CV8.md:274-303 | Every word is recovered with its name, and the spans cut the image into exactly the headers and bodies laid, in order, without gaps. |
| Fannkuch.FlipProgress | bench/langs/bench.c:20 | A flip keeps the permutation and strictly raises the sum of 2^i over fixed points. |
| Fannkuch.Flips | bench/langs/bench.py:30-32 | The number of flips is finite for every permutation of every size, and below 2^n. |
| Fannkuch.FlipsExactly | bench/langs/bench.c:20 | It is the one number of flips - each turning round as many cards as the front one says - after which 0 comes up, and not before. |
| Fannkuch.ArrangementIsPermutation | bench/langs/bench.c:16-25 | Every round's arrangement is a permutation. |
| Fannkuch.ArrangeInjective | bench/langs/bench.c:16-25 | No two rounds have the same arrangement. |
| Fannkuch.EachPermutationOnce | bench/langs/bench.c:16-25 | Each permutation of 0..n-1 is the arrangement of exactly one round below n!. |
| Fannkuch.MaxIsGreatest | bench/langs/bench.c:21 | The kernel's maximum is reached by some permutation of 0..n-1 and passed by none. |
| Fannkuch.ChecksumAlternates | bench/langs/bench.c:21 | The checksum is the sum of the even rounds' flips less that of the odd rounds'. |
| Fannkuch.TurnedIsArrange | bench/langs/bench.c:22-24 | The composition of prefix rotations that the digits give is the arrangement their factorial-base value names. |
| Fannkuch.RotateCounter | bench/langs/bench.c:22-24 | One rotation raises its digit by one, or completes a full turn and carries. |
| Fannkuch.SwapPrefix | bench/langs/bench.c:20 | The two-index swap loop is slice reversal of the prefix. |
| Fannkuch.CountFlips | bench/langs/bench.c:20 | The flip loop ends and counts the flips. |
| Fannkuch.RotatePrefix | bench/langs/bench.c:23 | The shifting loop is a prefix rotation. |
| Fannkuch.Advance | bench/langs/bench.c:22-24 | The inner loop moves to the next arrangement, or ends with the array back at the identity after exactly n! rounds. |
| Fannkuch.Fannkuch | bench/langs/bench.c:16-25 | For every n >= 1 the kernel runs one round for each k below n!, on the k-th arrangement, returns checksum and maximum over them, and leaves the array as it began. |
| Fannkuch.FannkuchBySlices | bench/langs/bench.py:26-40 | The script's slice form goes through the same rounds and returns the same number. |
| Sieve.SmallFactor | bench/langs/bench.c:6-7 | A composite number has a prime factor no greater than its root, so marking may start at i * i. |
| Sieve.ByteSieve | bench/langs/bench.c:6-7 | The byte sieve counts exactly the primes below N, for every N. |
| Sieve.OddMultiple | tests/native/bench/c/sieve.c:11-13 | Stepping by the prime over indices visits exactly the larger odd multiples. |
| Sieve.OddSieve | tests/native/bench/c/sieve.c:7-17 | The odds-only sieve counts exactly the odd primes up to 2 * SIZE + 1, for every SIZE. |
| Sieve.SievesMeet | tests/native/bench/c/sieve.c:7-17 | It is one less than the byte sieve at N = 2 * SIZE + 2 if and only if SIZE >= 1. |
| DeadWords.Finder.Load | tools/dead-words.py:64-102 | Reading the sources builds the tool's references, visible names, roots and assignments: each word resolved to the definition visible where it is used, a line known by the first name it defines. |
| References.NamesExactly | tools/dead-words.py:64-69 | Where it is used a name means the last definition of it so far. |
| References.RootsExactly | tools/dead-words.py:87-102 | The roots are the last definition of MAIN and what any word outside every definition means where it stands, and no others. |
| References.MainKept | tools/dead-words.py:101-102 | So MAIN is always reached, and its item stays. |
| References.ReferencesExactly | tools/dead-words.py:64-108 | A definition refers to what the words of its body, or before its name, mean there, and a deferred word to what the last IS line for it sets; to nothing else. |
| DeadWords.Finder.LinkDefers | tools/dead-words.py:104-108 | A deferred word refers to what it was last assigned, and to no earlier assignment. |
| DeadWords.Finder.Look | tools/dead-words.py:118-121 | A new reference gets a parent and goes into the queue; one seen before changes nothing. |
| DeadWords.Finder.Visit | tools/dead-words.py:113-121 | One round reaches one more node; no node is queued twice, so the tool's own check never fires. |
| DeadWords.Finder.Search | tools/dead-words.py:110-121 | The search ends on any graph; what it reaches is the least set with the roots and closed under references, and every parent chain is a shortest way to a root. |
| DeadWords.LevelsShortest | tools/dead-words.py:110-121 | No node is nearer to the roots than its breadth-first level. |
| DeadWords.Finder.Why | tools/dead-words.py:122-131 | The chain printed is the node's shortest reference path to a root, cut at 40 nodes; empty exactly for the unreachable. |
| DeadWords.ResolveSame | tools/dead-words.py:64-69 | Words of a surviving definition resolve, in the shortened sources, to the same definitions. |
| DeadWords.DeletingKeepsMeaning | tools/dead-words.py:133-164 | After --delete the tool reads the sources as the same surviving definitions in order, each with the references it had; by its reading no survivor refers to a deleted one. |
| References.KeptExactly | tools/dead-words.py:133-147 | What stays: the reached definitions; of the IS lines those with a word the tool does not know, and the last for each reached deferred word; and every other line. |
| ForthReading.ShortenedIsKept | tools/dead-words.py:133-164 | The shortened sources whose Forth reading is compared are exactly what --delete leaves. |
| ForthReading.LooksUpExactly | tools/dead-words.py:64-97 | The words said to be looked up in an item are those whose definitions its references, its roots or its assignment gain. |
| ForthReading.ResolvedSurvives | tools/dead-words.py:64-108 | Whatever definition the tool resolves a surviving word to survives. |
| ForthReading.KeepsWhenSpared | tools/dead-words.py:84-164 | After --delete the Forth compiler reads every surviving word as before - a name or a use, and of the same definition - if and only if it is left every definition that the tool does not see a survivor use. |
| ForthReading.TidyAgrees | tools/dead-words.py:84-105 | In sources whose items each start and end outside definitions, tool and compiler take a word for the same definition exactly when the tool looks the word up and it means an earlier item's first name. |
| ForthReading.DeletingKeepsForth | tools/dead-words.py:84-164 | In such sources deleting keeps the Forth reading if and only if no survivor uses a second name of a deleted line, or a deleted definition in a word the tool does not look up. |
| ForthReading.SecondNameLost | tools/dead-words.py:92-99 | `VARIABLE A  VARIABLE B`, `: F B @ ;` and `F`: only A is known to the tool, so the line goes, and with it B, which F uses. |
| DeadWords.DanglesExactly | tools/dead-words.py:86-90 | A surviving IS line whose word is known names a deleted definition only if its deferred word was not known there; in the shortened sources it names the definition it named if and only if that is reached. |
| DeadWords.UnknownDeferDangles | tools/dead-words.py:86-90 | Such a line: its deferred word is in no file read, and what it assigns is deleted. |
| Output.FullWriteDelivers | engine/cv8.c:349-359 | However write(2) splits it, full_write delivers everything in order, or a beginning and a failure. |
| Output.FullWriteTakes | engine/cv8.c:349-359 | full_write loses nothing if and only if each write(2) it makes takes at least one byte. |
| Output.TypeHolds | engine/cv8.c:836-839 | TYPE calls write(2) if and only if its bytes and those waiting are more than 4096; until then it only keeps them, in order. |
| Output.BufferedIsDirect | engine/cv8.c:772-839 | For every run and every way write(2) answers: at most 4096 bytes are buffered, and what is on descriptor 1 and then the buffer are exactly what was said, in order, if and only if each write(2) a flush has made took at least one byte. |
| Output.CompleteAtFlush | engine/cv8.c:1232-1248 | At each read, poll, write, fork, exec, BYE and SYS-EXIT the output is complete if and only if each write(2) a flush has made took at least one byte. |
| Output.CompleteAtDeath | engine/cv8.c:942-943 | At the exits that do not flush - a locals failure without a handler, a bad opcode - the output is complete if and only if besides nothing was typed since the last flush; else just what was typed since is missing. |
| Output.ChildSaysItsOwn | engine/cv8.c:1536-1538 | What a forked child adds to the descriptor, and its buffer, are exactly what it says itself if and only if each write(2) of its own flushes took a byte: nothing of its parent's is written twice. |
| Output.BytesGoWhereSaid | engine/cv8.c:1571-1574 | Where those writes took their bytes: at a flush every byte is where descriptor 1 pointed when it was typed if and only if no flush ever found in the buffer a byte typed while the descriptor, moved by DUP2 or closed and opened again, pointed elsewhere. |
| Output.NoneStrays | engine/cv8.c:1110-1126 | It is enough that every DUP2 onto descriptor 1, every closing of it and every opening that gets its number finds the buffer empty. |
| Output.FailedFlushLoses | engine/cv8.c:832-834 | t_flush empties the buffer whether or not full_write succeeded: a failed write loses it. |
| Output.RedirectStrays | engine/cv8.c:1571-1574 | A byte typed before DUP2 onto descriptor 1 and not yet flushed goes to the new file. |
| Output.ClosedStrays | engine/cv8.c:1110-1126 | So does one typed before CLOSE-FILE of descriptor 1, to the file OPEN-FILE opens next. |
| Terminal.TerminalBuffer.FullWrite | engine/cv8.c:349-359 | The write loop does what the specification says, its result telling whether anything was lost. |
| Terminal.TerminalBuffer.Flush | engine/cv8.c:832-834 | t_flush on the array and length is the specified flush. |
| Terminal.TerminalBuffer.Put | engine/cv8.c:836-839 | t_put never writes past the 4096-byte array. |
| Terminal.TerminalBuffer.Type | engine/cv8.c:1092-1104 | TYPE puts its bytes one by one, flushing whenever the array is full. |
| Terminal.TerminalBuffer.Perform | engine/cv8.c:1521-1544 | Each primitive does on descriptor 1 what its event specifies. |
| Terminal.TerminalBuffer.Serve | engine/cv8.c:772-839 | Any sequence of primitives runs as specified. |
| Signals.StepKeeps | engine/cv8.c:729-745 | Whatever is delivered between whichever steps, or inside another signal's handler, the flags up are exactly the signals of the deliveries still waiting, and the handlers entered those of the deliveries that have not got so far. |
| Signals.FatesMove | engine/cv8.c:1336-1372 | A delivery's handler raises its flag or throws; it leaves waiting only by a poll taking it or by SIGACTION erasing it; what a poll has taken it reports under its own number, what is erased is dropped when the handler changes; a restart that comes first loses it, and a throw from a handler inside its own. |
| Signals.LostOnlyByRestart | engine/cv8.c:729-745 | In every run, deliveries inside handlers included, a caught signal is lost if and only if a restart - a -28 throw, or a fault such as the poll's own push onto a full stack - came after a poll had cleared its flag and before it pushed the number, or after a SIGACTION to default or ignore had cleared a raised flag and before it changed the handler, or from a handler inside another that had not run yet. |
| Signals.NoThrowInAllocator | engine/cv8.c:740-744 | Whatever is delivered and handled while libc's allocator runs, it is left to run; nothing is thrown or forgotten, and exactly the flags of the signals to be caught or thrown are raised, or their handlers entered. |
| Signals.FinishAnswers | engine/cv8.c:1365-1372 | Left alone a poll answers the lowest flag and takes it down, or answers 0. |
| Signals.PollReports | engine/cv8.c:1365-1372 | Left alone one poll reports every delivery merged under the flag it answers, and no other. |
| Signals.SixtyFourPollsDrain | engine/cv8.c:1365-1372 | Once deliveries stop and their handlers have run, 64 polls report everything that waits, after any history. |
| Signals.ThrowLosesPolled | engine/cv8.c:740-744 | A run in which a throw loses a signal a poll had taken. |
| Signals.FullStackLosesPolled | engine/cv8.c:1365-1372 | A run in which the poll's own push, onto a full data stack, loses it. |
| Signals.ThrowLosesErased | engine/cv8.c:1359-1360 | A run in which a throw before SIGACTION's change of handler loses a signal whose flag it had cleared, though the signal is still to be caught. |
| Signals.ThrowBuriesHandler | engine/cv8.c:1347-1353 | A run in which, the engine between primitives, a throwing signal comes in another's handler before it has stored its flag, and jumps out over it: that signal is lost. |
| Signals.StaleExactly | engine/cv8.c:1349-1361 | In every run, once SIGACTION has installed default or ignore and until the next for that signal, its flag is up if and only if the signal was caught while SIGACTION ran, or the action was 5 or more and the flag was up before; and no poll has taken it since. |
| Signals.ActionInstalls | engine/cv8.c:1343-1361 | SIGACTION refuses five signals and what is no signal number; for any other it installs ignore, the raising, the throwing or the default handler by its action, and the next delivery is taken so. |
| Signals.IgnoredStillAnswered | engine/cv8.c:1354-1360 | A signal caught between SIGACTION's clearing of its flag and its change of handler is answered although by then ignored. |
| Signals.DefaultStillAnswered | engine/cv8.c:1349-1360 | SIGACTION with action 5 installs the default and, the action not being below 2, leaves the flag up: the next poll answers it. |
| Signals.SignalFlags.Pending | engine/cv8.c:1365-1372 | The loop over the flag array answers and clears the lowest flag. |
| Signals.SignalFlags.Catch | engine/cv8.c:731 | The handler raises exactly its signal's flag. |

## Left out

- Operating-system primitives (files, processes, sockets, environment, directories), TYPE and TRAP-XT! inside the engine model: an escaped selector without a meaning of its own ends a run as a host call; TYPE and the signal primitives have their own modules.
- A trap's restart by siglongjmp: a trap ends a run with its code. What the trap word does afterwards is Forth.
- Shifts by the cell width or more, undefined in C, have no meaning. The flat memory has no end: a cell at the top of the address space goes on beyond it.
- Which addresses the process has mapped. An address outside the image is readable and writable here and holds 0 until stored to; the engine traps with -9 where nothing is mapped, in a load, a store or the fetch of an instruction.
- Engine.VirtualMachine.Replacing: fetches do not trap with -9, because what is mapped outside the image is not modelled.
- Engine.VirtualMachine.Popping: stores do not trap with -9, for the same reason.
- Engine.VirtualMachine.Next: neither they nor the fetch of an instruction trap with -9, nor does a fetch in a guard page with -3 or -5.
- Engine.VirtualMachine.Execute: the same over whole runs.
- `-DGUARD=0`, and pops past the tops of the stacks: the sequence machine has no meaning there. SP! and RP! are in the flat machine only.
- The engine's memory is one 64 KB-aligned block with guard pages of 4 to 64 KB, as the guarded build has it.
- Engine.VirtualMachine.Repointing: only for pointers into the stacks' own regions, because elsewhere the cached cell's place need not exist.
- RelocatedRuns.PositionIndependent: only as long as the first run keeps integers and addresses apart (no sum of two addresses, no arithmetic but moving, rounding to a cell, subtracting and comparing within the image), because a program that mixes them can depend on its base.
- RelocatedRuns.ImageRunsAnywhere: the same from main() on.
- Inlining.InliningPreserves: dead cells below the return stack's top are not compared, and neither run may store into the body, its EXIT or the copy.
- CheckedCalls.CheckedInlines: the words called may not use RP@, RP! or SP!, leave their frame by a computed address, or be changed by a store during the run; EXECUTE is checked where it happens, by its target. The check is exact on words without branches or calls only, because which branches others take depends on data.
- Locals.ShallowIsDeep: code in a saved slot, and a store that overlaps a saved slot without being exactly that slot, have no meaning in the environment machine.
- Fusion.FusedRunMeets: return addresses cannot be read as numbers, because a fused program's addresses differ; data operations are arbitrary functions on a data state. The counting of triples and the choice of the most frequent pairs are not modelled: any set of pairs is allowed.
- Fusion.PlainRunMeets: the same programs.
- BodyDecoder.DecodeBody: bits of an operand byte are taken apart by division; statistics counters are left out, the listing has what they count.
- Dictionary.Walk: for images whose links lead back, as laid ones do; on others the script may not end.
- DeadWords.Finder.Load: lines come already split into words, without comments and string literals; blank-line squeezing and the comment lines deleted with a definition are text editing only.
- ForthReading.DeletingKeepsForth: `:NONAME`, `[` and the words that run during compilation are not told apart from other words, the defining words besides `:` are a parameter, and what a deferred word does while the sources are still loading is not followed.
- Signals.LostOnlyByRestart: deliveries are told apart, so one that is lost stays lost though an equal one comes later and is reported; merging with a later delivery is not counted as reporting.
- Signals.PollReports: a signal counts as reported when its number is pushed; what Forth code does with it is not modelled, nor is sigaction's own failure.
- Output.CompleteAtDeath: the guard page's and the division trap's own exits, which come in a signal handler and may find the buffer half-written.
- Dictionary.DictionaryRoundTrip: for images below 4 MB, which is all the memory the engine has.
- Fannkuch.Fannkuch: C's int and long do not overflow here; Python's do not either.
- The kernels fib, loop, matrix, bubble and collatz, the fuzzers, benchmark runners and report tools, the assembly engine and the rest of the kernel's sources: only easy or standard members, or plumbing.
