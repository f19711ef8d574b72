# NeoNova kernel: a verified model

This project models the stateful cores of the NeoNova kernel in Dafny and proves what they keep,
compute and promise. `dafny verify dfyconfig.toml` checks all of it. Where the source updates objects,
arrays or linked lists in place, so does the model: each such method is proved against a function on
values, and the theorems are about those functions.

**The bytecode VM and its back ends.**
`Bytecode` is the byte format, with an assembler and a disassembler that are inverse to each other.
`Vm`, `Recovery` and `Interpreter` are `vm_run` and `vm_recover`: byte-level fetches with a 32-bit
`pc` that wraps, two static snapshots, a recovery counter, and the mutual recursion, which is proved
equal to a loop. `Programs` says what each opcode computes, of programs in bytes and without the
model's own vocabulary. `ListMachine` runs a list of instructions, and the byte interpreter refines it.
`PortableBackend` is the loop that the ARM, RISC-V and photonic back ends share. `Codegen` is the
x86-64 generator with its 4096-byte buffer, `X86` a small processor (decoder and stepper), and
`CompilerCorrect` proves that the emitted bytes, decoded and run, compute what the interpreter
computes. That proof tracks a set of *trusted* registers: those whose home (RAX, RBX, RCX, RDX, or the
slot at `[rbp-8*r]`) still holds the VM's value. One theorem therefore covers programs on low
registers, on high registers, and mixtures. `StraightLine` states it for instruction lists, and
`CodegenStops` says on which bytecode the generator's loop ends.

**Rings.**
`IpcRing` is the kernel's bounded message ring as an object; `IpcThreads` runs it statement by
statement under every schedule of any number of threads, with the lock and without. `InputRing` and
`Keyboard` are the overwriting event rings of the keyboard and mouse drivers.

**The network stack.**
`Dns` and `Dhcp` are the wire codecs, `Lease` the per-tick lease machine of the interface table, and
`NetStack` the table as an array of structures, with the DHCP exchange on byte buffers.

**Windows.**
`WindowManager` is the heap: linked windows per desktop, changed through pointers. `WindowModel` says
what each operation does to the lists, what every run keeps, and that Tab is a full cycle;
`WindowEffects` says it by ids and positions, and which windows a desktop holds after any run; `Tiling`
is the tiling arithmetic.

**Timelines.**
`TimelineModel` and `Timeline` are the saved states of a window, their branches, and the monitor that
rewinds by itself.

**Deduplication.**
`Dedup` is the digest table of the copy-on-write file system.

## What the proofs found

- `vm_recover` restores its own static `last_snap`, which nothing ever writes; the one that `vm_run`
  fills is another variable of the same name. So from start-up, after any calls, recovery never goes
  back to a snapshot: it wipes the VM (`Recovery.NeverGoesBack`, `Recovery.RecoveryWipesTheVm`). The
  other recovery theorems hold for any snapshot contents.
- The ModRM tables of the x86-64 generator name the right two registers for exactly 6 of the 16 low
  pairs for ADD and SUB and 8 for MUL (`CompilerCorrect.PairRightIffGood`).
- The generator follows jumps while it generates, so bytecode that loops without emitting makes it hang
  (a jump to itself does: `Codegen.SelfJumpNeverStops`). It ends exactly where its cursor comes to no
  offset from which `size` jumps, loads, stores and system calls follow each other
  (`CodegenStops.StopsIffNeverTrapped`). It still never writes outside its buffer.
- A straight-line program too long for the buffer is cut off in the middle. The generator reports
  success all the same, but has emitted no epilogue (`StraightLine.FinishedIffFits`).
- The unlocked ring of `kernel64/kernel.c` is safe for at most one sending and one receiving thread;
  with more of either it is not, unless nobody sends at all (`IpcThreads.SafeIff`).
- The DNS answer loop cannot skip owner names that end in a pointer after some labels
  (section 4.1.4 of RFC 1035). It reads the type fields of a response where they are, up to the first
  address, exactly if no such name occurs up to there (`Dns.WalkFollowsIffWhole`). The host name
  encoder is right exactly for labels of 1 to 63 bytes (`Dns.NameRoundTripIff`).
- The DHCP scan takes the pad option for an option with a length. It looks for option codes where the
  fields begin exactly if there is no pad among them (`Dhcp.ScanFollowsIffNoPad`).
- A lease is renewed at exactly ten ticks left, so a timer that starts at or below ten runs out
  (`Lease.UpForEverIffAboveTen`). A hot-plugged interface inherits the lease fields that an unplugged
  one left in its slot (`Lease.StaleLeaseInherited`): it starts with a lease exactly if the last entry
  its slot held was on one when the slot was freed (`Lease.LeaseInheritedIff`).
- With fewer than two saved states the self-healing monitor never rewinds and its count grows for ever
  (`TimelineModel.TooFewStatesNeverRewind`).
- Deduplicating a file twice reports every block as a duplicate only if all different digests fit the
  table (`Dedup.SecondPassIffRoom`).

The header `core/bytecode_vm.h` numbers the opcodes differently from `core/bytecode_vm.c`, because it
lacks LOAD, STORE and SYSCALL; the model uses the numbering of the `.c` file throughout.

## Model

| member | source | states |
|---|---|---|
| Bytecode.FetchInvertsEncode | core/bytecode_vm.c:113-212 | memory holds the encoding of an instruction if and only if decoding at that address yields that instruction |
| Bytecode.DisassembleIffAssembled | core/bytecode_vm.c:112-220 | a byte range disassembles to a program if and only if it is exactly the assembled program |
| Bytecode.DisassembledIsAssembled | core/bytecode_vm.c:112-220 | in any memory, every byte range that disassembles is the assembled form of its disassembly |
| Bytecode.FetchAtOffset | core/bytecode_vm.c:113-113 | in an assembled program the fetch at the k-th offset is the k-th instruction |
| Interpreter.VmObject.Cycle | core/bytecode_vm.c:113-218 | one pass of the switch, on arrays updated in place with a wrapping `pc`, is the step of the VM on values, and calls for recovery exactly on an invalid opcode |
| Interpreter.VmObject.Arithmetic | core/bytecode_vm.c:124-151 | ADD, SUB, MUL and DIV wrap at 32 bits, ignore registers out of range and division by zero |
| Interpreter.VmObject.SystemCall | core/bytecode_vm.c:185-208 | exit halts, the clock call stores one reading, anything else changes nothing but `pc` |
| Interpreter.Executive.VmSnapshot | core/bytecode_vm.c:67-74 | the static snapshot of `vm_run` becomes a copy of the VM and nothing else changes |
| Interpreter.Executive.VmRestore | core/bytecode_vm.c:77-84 | the VM becomes the snapshot of `vm_recover`, which is left as it was |
| Interpreter.Executive.VmRun | core/bytecode_vm.c:107-222 | on every VM on which it returns, the run leaves the machine that the mutually recursive specification yields, statics included |
| Interpreter.Executive.VmRecover | core/bytecode_vm.c:87-104 | rolls back and reruns while fewer than three recoveries have happened, otherwise halts the VM |
| Recovery.LoopEndsStopped | core/bytecode_vm.c:112-112 | a finished run leaves the VM halted or with `pc` past its code, whatever it was rolled back to |
| Recovery.FaultIsLastIteration | core/bytecode_vm.c:213-218 | an invalid opcode is the last iteration of the loop that meets it: the recovery's result is the loop's result |
| Recovery.RecursionIsFlat | core/bytecode_vm.c:87-222 | `vm_run` and `vm_recover` return with a state if and only if a loop without recursion ends in it |
| Recovery.RollbacksCounted | core/bytecode_vm.c:93-96 | the static counter grows by exactly the number of rollbacks and never passes three |
| Recovery.AtMostThreeRestarts | core/bytecode_vm.c:93-103 | over any sequence of calls on any VMs and any code there are at most three restarts |
| Recovery.ForwardRunsEnd | core/bytecode_vm.c:87-222 | where iterations only move forward the loop ends, by restarts left and then distance to the end of the code |
| Recovery.SessionKeepsSnap | core/bytecode_vm.c:88-109 | no sequence of calls writes the snapshot that recovery restores |
| Recovery.NeverGoesBack | core/bytecode_vm.c:87-98 | from start-up, after any calls and any number of iterations, an attempted recovery leaves a VM without code although the snapshot of `vm_run` has code, so it never restores that snapshot |
| Recovery.RecoveryWipesTheVm | core/bytecode_vm.c:87-98 | from start-up, after any calls, the loop that meets an invalid opcode ends at once with zero registers and stack, no code, and not halted |
| Recovery.InvalidOpcodeWipes | core/bytecode_vm.c:87-218 | `vm_run` on any VM whose next byte is no opcode returns, while recoveries are left, with the VM wiped |
| Recovery.OneByteIsWiped | core/bytecode_vm.c:213-218 | the one-byte program 12 is such a VM |
| Recovery.FourthFaultHalts | core/bytecode_vm.c:93-103 | with three recoveries behind it, the next invalid opcode ends the run at once, the VM halted and otherwise as the fault left it |
| Recovery.RestoreUndoes | core/bytecode_vm.c:67-84 | restoring what was taken of a VM gives that VM back, clock readings excepted |
| Recovery.EnterTakes | core/bytecode_vm.c:107-111 | a run begins by copying the VM to the snapshot of `vm_run` and clearing `halted` |
| Programs.ArithmeticComputes | core/bytecode_vm.c:124-151 | the program of an opcode from 2 to 5, two registers and HALT leaves in the first the sum, difference or product modulo 2^32, or the q with q*y <= x < (q+1)*y, and nothing else changed; division by zero and registers out of range change nothing |
| Programs.ImmediateLoads | core/bytecode_vm.c:117-123 | opcode 1 loads the four bytes behind the register number, least significant first, and changes nothing else |
| Programs.StoreWrites | core/bytecode_vm.c:176-184 | opcode 9 writes the register to the named cell of 256 and nothing else; a register or cell out of range changes nothing |
| Programs.LoadReads | core/bytecode_vm.c:168-175 | opcode 8 reads that cell into the register, under the same conditions |
| Programs.StoredIsLoaded | core/bytecode_vm.c:168-184 | a store and a load of the same cell carry the value of one register to another, and no other register or cell changes |
| Programs.ExitEnds | core/bytecode_vm.c:189-191 | system call 1 ends the run where it stands |
| Programs.ClockIsRead | core/bytecode_vm.c:185-208 | system call 2 puts the next clock reading into the register named; every number but 1 and 2 does nothing |
| Programs.NopFallsOff | core/bytecode_vm.c:112-116 | a lone NOP changes nothing and leaves the VM past its code, not halted |
| Programs.HaltHalts | core/bytecode_vm.c:209-212 | a lone HALT halts and changes nothing else |
| Programs.JumpJumps | core/bytecode_vm.c:152-155 | opcode 6 goes to the address in the four bytes behind it |
| Programs.JumpsIffZero | core/bytecode_vm.c:156-167 | opcode 7 jumps if its register exists and holds zero, and otherwise goes on to the instruction behind it |
| Programs.CountdownCounts | core/bytecode_vm.c:112-167 | for every k below 2^32 the loop of JZ, SUB, ADD and JMP returns with r0 counted down from k to zero and r1 up to k, every other register and the stack as before |
| ListMachine.StepRefines | core/bytecode_vm.c:112-220 | where the byte interpreter steps, so does the machine over the instruction list, to the same place, and no operand lies at or past the end of the code |
| ListMachine.IterateRefines | core/bytecode_vm.c:112-220 | the same for runs of any length |
| ListMachine.RunsStayOnBoundaries | core/bytecode_vm.c:112-218 | over every run, recoveries included, `pc` is on an instruction boundary or at or past the end, and each instruction lies inside the code |
| ListMachine.RunsReadOnlyTheCode | core/bytecode_vm.c:112-218 | memory past the code has no influence on a run |
| ListMachine.ForwardProgramsReturn | core/bytecode_vm.c:87-222 | for programs with forward jumps only, `vm_run` returns, with any number of recoveries left |
| PortableBackend.JitBackend | core/arch/arm/jit_backend.c:8-62 | the loop refuses an empty program, leaves a halted VM as it is, and otherwise ends in the data of the recursive back-end run, with `pc` untouched |
| PortableBackend.BackendStep | core/arch/riscv/jit_backend.c:12-60 | one iteration has the interpreter's effect on supported instructions and halts on others |
| PortableBackend.BackendFollowsInterpreter | core/arch/photonic/jit_backend.c:12-60 | from any offset, the interpreter comes to where the back end ends, with the same registers and stack, meeting no invalid opcode before |
| PortableBackend.BackendRefinesInterpreter | core/arch/arm/jit_backend.c:12-60 | from offset 0 the back end's registers are the interpreter's where it ended; its result is that of the whole `vm_run` if and only if it met no unsupported opcode |
| PortableBackend.HaltedUnlessAtEnd | core/arch/arm/jit_backend.c:12-60 | the back end halts exactly if it stopped before the end of the code, at an 11 or at a byte of 6 or more it does not support, and it never touches the stack |
| X86.LowOfWide | core/arch/x86_64/jit_backend.c:68-160 | the low half of a 64-bit sum, difference or product is the 32-bit result of the low halves |
| Codegen.EmissionBound | core/arch/x86_64/jit_backend.c:43-43 | for every program, however its jumps lead the generator, at most 4087 of the 4096 bytes are ever written |
| Codegen.Emitter.Put | core/arch/x86_64/jit_backend.c:32-37 | writing through the cursor appends to the bytes emitted, inside the buffer |
| Codegen.GenLoadImm | core/arch/x86_64/jit_backend.c:50-67 | emits the move to a register for r0 to r3 and the store to a slot otherwise |
| Codegen.GenAlu | core/arch/x86_64/jit_backend.c:68-197 | emits the table instruction for low pairs and the three-step slot code otherwise |
| Codegen.GenOne | core/arch/x86_64/jit_backend.c:44-248 | one iteration of the generator is one step of its specification, within the guard's 32 bytes |
| Codegen.GenerateCode | core/arch/x86_64/jit_backend.c:28-250 | on every program on which the loop ends, the buffer holds the specified bytes, and the result is success if and only if the loop came upon no byte above 11; a program that begins with one is refused |
| Codegen.EndsByByte | core/arch/x86_64/jit_backend.c:43-248 | the loop has ended in rejection if and only if the last byte it looked at is above 11, complete if and only if it is 11, and otherwise past the code or at the guard, the offsets looked at being given by the bytes alone |
| Codegen.RejectedIffMeetsInvalid | core/arch/x86_64/jit_backend.c:43-248 | an ended loop has rejected the program if and only if it came, inside the code and with room before the guard, upon a byte above 11 |
| Codegen.DivisionBytes | core/arch/x86_64/jit_backend.c:162-197 | the bytes emitted for a division |
| Codegen.GeneratorStops | core/arch/x86_64/jit_backend.c:43-203 | with forward jumps only the generator stops |
| Codegen.SelfJumpNeverStops | core/arch/x86_64/jit_backend.c:198-202 | on bytecode that begins with a jump to itself the generator stays in its first state for ever |
| CodegenStops.StopsIffNeverTrapped | core/arch/x86_64/jit_backend.c:43-238 | the generator ends if and only if its cursor comes, in its first 4096 * size iterations, to no offset from which size instructions in a row emit nothing |
| CodegenStops.StopsWithoutTraps | core/arch/x86_64/jit_backend.c:43-238 | it ends on all bytecode that has no such offset at all |
| CodegenStops.ForwardHasNoTraps | core/arch/x86_64/jit_backend.c:198-214 | bytecode without backward jumps has none |
| CompilerCorrect.EmissionDecodes | core/arch/x86_64/jit_backend.c:43-160 | the bytes emitted for an instruction decode to the processor instructions meant |
| CompilerCorrect.PairRightIffGood | core/arch/x86_64/jit_backend.c:68-160 | over all processor states, the instruction emitted for a low pair computes the VM's result if and only if the pair is in the list of good pairs |
| CompilerCorrect.InstructionEmulated | core/arch/x86_64/jit_backend.c:43-160 | the code of one instruction keeps every trusted register equal to the interpreter's, the frame intact, and memory outside the frame unchanged |
| CompilerCorrect.EmittedCodeFollows | core/arch/x86_64/jit_backend.c:43-160 | interpreter, generator and processor stay in lockstep over any number of instructions |
| CompilerCorrect.CompilerCorrect | core/arch/x86_64/jit_backend.c:28-250 | the emitted code, called in any state with the known registers at home, returns to its caller, changes no memory outside its frame, and leaves every trusted register equal, mod 2^32, to what `vm_run` computes |
| CompilerCorrect.LowProgramsCorrect | core/arch/x86_64/jit_backend.c:43-160 | programs on r0 to r3 with good pairs: the four processor registers agree with the interpreter at the end if they did at the start, and r0 is left at `[rbp-8]` |
| CompilerCorrect.HighProgramsCorrect | core/arch/x86_64/jit_backend.c:59-159 | programs on r4 to r15: all slots agree at the end, and of the low registers only r0 is lost |
| StraightLine.CompilesIffFits | core/arch/x86_64/jit_backend.c:43-244 | a straight-line list of the fragment, ended by HALT, compiles if and only if what is emitted for it stays clear of the buffer guard |
| StraightLine.CompiledList | core/arch/x86_64/jit_backend.c:34-244 | it compiles to prologue, emitted instructions and epilogue |
| StraightLine.FinishedIffFits | core/arch/x86_64/jit_backend.c:43-250 | for a straight-line list the generator always ends without rejecting it; what it emits is complete, epilogue included, if and only if the list fits, and otherwise a beginning of prologue and instructions |
| StraightLine.LowListsCorrect | core/arch/x86_64/jit_backend.c:43-160 | for every list on r0 to r3 with good pairs that fits the buffer, the emitted bytes leave the four processor registers equal, mod 2^32, to what `vm_run` computes |
| StraightLine.HighListsCorrect | core/arch/x86_64/jit_backend.c:59-159 | the same for lists on r4 to r15 and their slots |
| IpcRing.FullAndEmpty | kernel64/modular.c:188-206 | the ring is full exactly when it holds all but one entry, empty exactly when head meets tail |
| IpcRing.IpcQueue.Send | kernel64/modular.c:187-198 | refuses and changes nothing when all but one entry are taken, otherwise appends the message |
| IpcRing.IpcQueue.Receive | kernel64/include/modular.h:95-106 | refuses when empty, otherwise removes and returns the oldest message |
| IpcThreads.LockedRingIsFaithful | kernel64/modular.c:183-214 | under every schedule of any number of threads: one thread at most in the critical section, the received messages are a prefix of the accepted ones, the rest is the ring's contents in order, at most size minus one |
| IpcThreads.StepKeepsInv | kernel64/include/modular.h:81-106 | every statement keeps the ring faithful and what every thread relies on, as long as no two threads send or receive at once |
| IpcThreads.TwoSendersLose | kernel64/kernel.c:52-58 | without the lock, a schedule of two senders breaks the ring |
| IpcThreads.TwoReceiversDuplicate | kernel64/kernel.c:60-65 | without the lock, a schedule of two receivers delivers one message twice |
| IpcThreads.SafeIff | kernel64/kernel.c:52-65 | a ring is faithful under all schedules if and only if it is locked or used by at most one sender and one receiver (or no sender at all) |
| InputRing.EventQueue.Enqueue | drivers/input/kbd_ps2.c:41-45 | the ring holds the sliding window of its history after each overwriting write |
| InputRing.EventQueue.Dequeue | drivers/input/mouse_ps2.c:50-55 | returns the oldest event of the window, if there is one, and moves on |
| InputRing.EventQueue.Poll | drivers/input/mouse_ps2.c:30-56 | one poll enqueues what has arrived and answers with the oldest pending event |
| InputRing.DeliveredInOrder | drivers/input/kbd_ps2.c:41-68 | over every run, events are delivered in the order of their arrival, each at most once |
| InputRing.LostOnlyByOverwriting | drivers/input/kbd_ps2.c:41-45 | an event neither delivered nor pending has 63 newer ones behind it |
| InputRing.EveryEventAccountedFor | drivers/input/mouse_ps2.c:24-56 | from start-up every event is delivered, pending or overwritten by 63 newer ones |
| InputRing.PollsNeverDrop | drivers/input/kbd_ps2.c:47-68 | a driver that is only polled answers each poll with what has just arrived |
| InputRing.OutputsAreDelivered | drivers/input/kbd_ps2.c:41-68 | what the dequeues answer, in order, is the events at the positions delivered |
| Keyboard.ModifiersAreShift | drivers/input/kbd_ps2.c:55-56 | the modifier byte is the shift bit if the last code concerning shift was a press, and zero otherwise; the release prefix 0xF0 of any key concerns shift |
| Keyboard.PressAndRelease | drivers/input/kbd_ps2.c:51-57 | a scan code below 128 is a press and the same plus 128 a release, with the same key code |
| Keyboard.KbdDriver.PollEvent | drivers/input/kbd_ps2.c:47-68 | a poll decodes the waiting scan code with the modifiers of the codes before it and answers from the ring |
| Dns.NameRoundTripIff | network/net_stack.c:348-359 | reading the encoded host name gives back its labels if and only if all are 1 to 63 bytes long |
| Dns.SplitInvertsJoin | network/net_stack.c:350-358 | splitting undoes joining labels with dots |
| Dns.SkipLandsAfterName | network/net_stack.c:374-375 | the skip loop lands behind an uncompressed name |
| Dns.QuerySkips | network/net_stack.c:348-376 | in the query as built, the skip loop from offset 12 stops four bytes before the end if and only if no label is empty, and never behind it |
| Dns.OwnerSkippedIffWhole | network/net_stack.c:379-379 | the answer loop finds the end of an owner name if and only if it is not labels followed by a pointer |
| Dns.WalkInvertsPrint | network/net_stack.c:374-392 | on every printed response with one question and up to 255 answers, with owner names up to the first address a pointer or uncompressed (labels of up to 255 bytes, the first below 192), the walk returns the first type-A address of length 4, or that there is none |
| Dns.WalkFollowsIffWhole | network/net_stack.c:374-390 | over whole printed responses, the walk reads type fields exactly where the records have them, up to the first address, if and only if no owner name up to there is labels followed by a pointer |
| Dns.WalkIsFirstRead | network/net_stack.c:378-390 | the walk's outcome is that of the records at the positions where it reads type fields |
| Dns.WalkOverrunsIff | network/net_stack.c:378-390 | the walk reads past the buffer if and only if it comes to an answer whose name, fixed fields or address stick out |
| Dns.MixedOwnerMissed | network/net_stack.c:379-379 | a valid response with an A record whose owner ends in a pointer after a label is reported as having none |
| Dns.EncodeHost | network/net_stack.c:348-358 | the encoder's loop writes exactly the encoded labels |
| Dns.BuildQuery | network/net_stack.c:341-362 | the buffer holds header, encoded name, type and class |
| Dns.QueryAsksForAddress | network/net_stack.c:341-362 | read by an independent reader, the query carries its number, recursion desired, one question and no record, and asks for the labels of the host name, type A, class IN |
| Dns.ParseResponse | network/net_stack.c:374-392 | the parser's loops return what the walk says on every buffer they do not read past |
| Dhcp.LastWordIsLast | network/net_stack.c:287-288 | the value returned for a code is that of its last four-byte occurrence |
| Dhcp.ScanInvertsPrint | network/net_stack.c:284-291 | on every option list closed by 255 within what was received, the scan stays in bounds and returns the last four-byte subnet mask and router |
| Dhcp.ScanFollowsIffNoPad | network/net_stack.c:284-291 | over every printed option field closed by 255 within what was received, the positions the scan visits are the field boundaries if and only if no field is a pad |
| Dhcp.ScanCollectsVisited | network/net_stack.c:284-291 | the scan's result is what the options at the positions it visits say |
| Dhcp.ScanOverrunsIff | network/net_stack.c:284-291 | the scan reads past the buffer if and only if it comes to an option whose length byte, or four-byte mask or router, sticks out |
| Dhcp.PadHidesSubnet | network/net_stack.c:284-291 | a subnet mask behind a pad byte is lost |
| Dhcp.WriteDiscoverOptions | network/net_stack.c:271-274 | the DISCOVER options are a printed option list closed by 255 |
| Dhcp.WriteRequestOptions | network/net_stack.c:298-302 | so are the REQUEST options, for every address and router |
| Dhcp.BuildDiscover | network/net_stack.c:262-275 | the whole DISCOVER packet of 548 bytes: header with transaction number and hardware address, cookie, options 53 (discover) and 55 (mask, router), zeros |
| Dhcp.BuildRequest | network/net_stack.c:293-302 | the whole REQUEST packet: the same header, options 53 (request), 50 with the address and 54 with the router, zeros |
| Dhcp.ScanOptions | network/net_stack.c:308-318 | the scan loop returns what its specification says on every buffer it does not read past |
| Lease.DownAfterExactlyTheRest | network/net_stack.c:157-168 | in every run of ticks, renewals, up/down, configuration and hotplug calls that spares an entry, followed through the table, the interface is up if and only if it was and fewer ticks have passed than its timer said |
| Lease.UpForEverIffAboveTen | network/net_stack.c:160-166 | an entry on a lease stays up through every run of the table in which its renewals succeed and nobody switches it off or removes it, if and only if its timer is above ten |
| Lease.TimersAfterATick | network/net_stack.c:155-168 | from boot, after any events and a tick, an interface up on a lease has 1 to 3600 ticks left |
| Lease.LeaseInheritedIff | network/net_stack.c:500-524 | after any run from boot, a newly plugged interface starts with a lease if and only if its slot was in use before and the entry in it was on a lease when the slot was last freed |
| Lease.AfterIsRun | network/net_stack.c:145-524 | the table after all events of a run, counted from boot, is the one the run leads to |
| Lease.FreeSlotHoldsLeaseIff | network/net_stack.c:513-524 | at every point of every run from boot, a free slot of the table holds a lease if and only if its last entry was on one when the slot was freed |
| Lease.EveryTimerReached | network/net_stack.c:155-168 | every timer from 1 to 3600, those at ten and below included, is reached on a leasing interface by a run from boot |
| Lease.StaleLeaseInherited | network/net_stack.c:500-524 | a run from boot after which a newly plugged interface carries the lease of one that was pulled |
| Lease.BootHasOne | network/net_stack.c:145-154 | at start-up there is one interface, eth0, down and without a lease |
| Lease.NamedEffect | network/net_stack.c:400-422 | switching and configuring reach the first entry of that name and set its state, or its three addresses, and nothing else |
| Lease.UnknownEffect | network/net_stack.c:400-524 | switching, configuring or unplugging an unknown name does nothing |
| Lease.RequestEffect | network/net_stack.c:319-324 | a completed exchange sets the three addresses, brings the interface up and starts a lease of 3600 ticks; a failed one does nothing |
| Lease.TickEffect | network/net_stack.c:155-168 | a tick counts the running leases down by one; the one that comes to ten is renewed with what the exchange brings, and the one that comes to zero takes its interface down |
| Lease.PlugInEffect | network/net_stack.c:500-512 | a plugged-in interface comes behind the others, down, without addresses, with the lease fields of its slot, unless there are four |
| Lease.PullEffect | network/net_stack.c:513-524 | pulling takes out the first entry of that name; the others keep their order and the freed slot its contents |
| NetStack.Exchange | network/net_stack.c:252-318 | the outcome of an exchange, and the one or two packets it tries to send: the DISCOVER, and after an offer the REQUEST for the address and router of the offer |
| NetStack.AcknowledgedConfig | network/net_stack.c:304-321 | a completed exchange yields the address at byte 16 of the acknowledgement, the netmask of its last four-byte option 1 and the gateway of its last four-byte option 3, for every printed option list closed by 255 |
| NetStack.ExchangeFailsIff | network/net_stack.c:252-306 | it yields nothing if and only if a packet was not sent or not received |
| NetStack.AcknowledgedEntry | network/net_stack.c:304-324 | and exactly these come to stand in the interface's entry, which is up with a lease of 3600 ticks, all other entries untouched |
| NetStack.InterfaceTable.RequestLease | network/net_stack.c:252-330 | the exchange and its effect on the table; the code is -1 exactly if the exchange failed |
| NetStack.InterfaceTable.TickTable | network/net_stack.c:157-168 | one pass over the table in place ticks every entry in use |
| NetStack.InterfaceTable.Add | network/net_stack.c:500-512 | adds an entry without touching its lease fields, or refuses when four are in use |
| NetStack.InterfaceTable.Assign | network/net_stack.c:410-421 | sets address, mask and gateway of the first entry of that name and touches neither its lease nor its state |
| NetStack.InterfaceTable.Remove | network/net_stack.c:513-524 | moves the later entries up by one and leaves the last slot as it was |
| WindowManager.Desktop.Find | gui/window_manager.c:36-44 | returns the node of the first window with the id, or null |
| WindowManager.Desktop.GetFocused | kernel64/main.c:99-104 | returns the node of the first focused window, or null |
| WindowManager.Desktop.Create | gui/window_manager.c:58-76 | puts a new unfocused window in front of the list, or refuses at 32; the list stays linked without repetition |
| WindowManager.Desktop.Destroy | gui/window_manager.c:78-92 | unlinks exactly the named window, keeps the order of the others and the length equal to the count |
| WindowManager.Desktop.FocusOn | gui/window_manager.c:110-119 | unfocuses every window and focuses the named one, if it is there |
| WindowManager.Desktop.TileWindows | gui/window_manager.c:135-153 | the nested loops along the list give the i-th window the i-th tile of the grid |
| WindowManager.Desktop.PressTab | kernel64/main.c:115-118 | focuses the window behind the focused one, round the end of the list |
| WindowManager.Manager.Create | gui/window_manager.c:58-76 | as the operation on values, and no other desktop changes |
| WindowManager.Manager.Destroy | gui/window_manager.c:78-92 | as the operation on values, and no other desktop changes |
| WindowManager.Manager.SwitchTo | gui/window_manager.c:155-159 | changes the current desktop if there is one of that number |
| WindowModel.RemoveOk | gui/window_manager.c:78-92 | removing leaves exactly the other ids, in a list that is still well formed |
| WindowModel.EveryRunKeepsInv | gui/window_manager.c:58-159 | after any operations from start-up: at most 32 windows per desktop, ids strictly decreasing along each list and on one desktop only, at most one window focused per desktop |
| WindowModel.TabMovesOn | kernel64/main.c:115-118 | one press moves the focus to the next window, round the end |
| WindowModel.TabIsAFullCycle | kernel64/main.c:99-118 | n presses on n windows focus each window exactly once and end where they began |
| WindowModel.TiledWindows | gui/window_manager.c:135-153 | after tiling all windows of the list lie on the screen and no two overlap |
| WindowEffects.HoldsIffAlive | gui/window_manager.c:58-159 | after any operations from start-up, a desktop holds a window if and only if it was created while that desktop was the current one and not destroyed since while it was |
| WindowEffects.CreateEffect | gui/window_manager.c:58-76 | a new window comes in front with the next id, the geometry asked for and no focus; at 32 nothing happens |
| WindowEffects.DestroyEffect | gui/window_manager.c:78-92 | exactly the window of that id leaves the current list and all others stay as and in the order they were; other desktops, the current one and the next id do not change |
| WindowEffects.FocusEffect | gui/window_manager.c:110-119 | the window of that id has the focus and no other of the desktop has; with an unknown id none has |
| WindowEffects.TabEffect | kernel64/main.c:115-118 | Tab moves the focus to the next position, round the end, and changes nothing else |
| WindowEffects.TabWithoutFocusEffect | kernel64/main.c:107-118 | without a focused window Tab does nothing |
| WindowEffects.SwitchEffect | gui/window_manager.c:155-159 | switching changes the current desktop to one of the eight, and no window |
| WindowEffects.TileEffect | gui/window_manager.c:135-153 | the i-th of n windows gets column i mod c and row i div c of the grid with the least c whose square is at least n and the least number of rows that make room |
| WindowEffects.StartsEmpty | gui/window_manager.c:46-56 | at start-up there is no window, the first desktop is the current one and ids begin at 1 |
| Tiling.ColsIsLeast | gui/window_manager.c:139-140 | the column count is the least number whose square is at least n |
| Tiling.RowsFit | gui/window_manager.c:141-141 | rows times columns suffice, one row fewer would not, and there are no more rows than columns |
| Tiling.TilesOnScreen | gui/window_manager.c:142-150 | every tile lies inside 1280 by 720, for every n |
| Tiling.TilesApart | gui/window_manager.c:142-150 | tiles of different windows do not overlap, for every n |
| Tiling.TilesNotEmpty | gui/window_manager.c:142-142 | with as many windows as a desktop holds, tiles are at least 213 by 120 |
| TimelineModel.StatesAreTheFirstSaves | gui/widgets/quantum_timeline.c:17-29 | after any history the timeline holds exactly the first sixteen saves under their numbers, with the first 63 characters of each title and 255 of each snapshot, and the current index is valid |
| TimelineModel.AppendOnly | gui/widgets/quantum_timeline.c:17-36 | saved states are never changed or lost |
| TimelineModel.RewindRestores | gui/widgets/quantum_timeline.c:17-36 | rewinding to i, however much later, brings back the title and snapshot of the i-th save, in full if they are shorter than 64 and 256 |
| TimelineModel.RewindElsewhere | gui/widgets/quantum_timeline.c:31-36 | rewinding to a number under which nothing is saved does nothing |
| TimelineModel.TriggerRewinds | gui/widgets/self_heal.c:31-38 | a manual rewind makes that state the current one and notes its number, while unstable ticks stay counted; without a timeline it does nothing |
| TimelineModel.CountIsTheStreak | gui/widgets/self_heal.c:12-29 | the count is the number of unstable ticks since the last stable tick or automatic rewind |
| TimelineModel.NeverThreeAfterATick | gui/widgets/self_heal.c:16-24 | with two saved states or more, at most two unstable ticks are counted after any tick |
| TimelineModel.EveryThirdTickRewinds | gui/widgets/self_heal.c:16-24 | from a clean count every third unstable tick in a row rewinds to the last state but one and notes its number |
| TimelineModel.TooFewStatesNeverRewind | gui/widgets/self_heal.c:16-18 | without two saved states nothing is rewound and the count grows with every unstable tick |
| Timeline.QuantumTimeline.Branch | gui/widgets/quantum_timeline.c:38-50 | a fifth branch is refused; otherwise a new timeline with arrays of its own, one labelled state and no branches is appended, born after all others, so that it can be saved to and branched in turn |
| Timeline.QuantumTimeline.Render | gui/widgets/quantum_timeline.c:52-60 | rendering terminates on whatever branches were ever made, and lists states and branches in order, depth first |
| Timeline.RenderedStates | gui/widgets/quantum_timeline.c:52-55 | the title comes first, then the states in the order of their numbers, exactly the current one marked |
| Timeline.RenderedBranch | gui/widgets/quantum_timeline.c:56-59 | behind the states the branches follow without a gap, each as it is rendered by itself below its number |
| Timeline.SelfHealMonitor.Tick | gui/widgets/self_heal.c:12-29 | a tick does to monitor and timeline what the operation on values says, also without a timeline |
| Dedup.NotedOk | drivers/unified_driver_framework/cowfs.c:102-117 | the table never holds a digest twice, never exceeds its size and never loses an entry |
| Dedup.RoomKeepsAll | drivers/unified_driver_framework/cowfs.c:106-112 | while all different digests fit, the table holds exactly those of table and file |
| Dedup.SecondPassIffRoom | drivers/unified_driver_framework/cowfs.c:96-120 | a second pass over a file reports every block as a duplicate if and only if the table had room for all different digests |
| Dedup.InTableIff | drivers/unified_driver_framework/cowfs.c:102-117 | a digest is in the table if and only if it was before or some block with it came while there was room |
| Dedup.FoundCountsRepeats | drivers/unified_driver_framework/cowfs.c:96-120 | the number of duplicates reported is that of the blocks whose digest was in the table or came earlier in the file while there was room |
| Dedup.BlockTable.Search | drivers/unified_driver_framework/cowfs.c:105-110 | finds a digest if and only if it is in the table |
| Dedup.BlockTable.Deduplicate | drivers/unified_driver_framework/cowfs.c:96-120 | the pass in place leaves the specified table and returns how many blocks were found in it |
| Timeline.SelfHealMonitor.TriggerRewind | gui/widgets/self_heal.c:31-38 | a manual rewind to a saved state, and nothing otherwise |

## Left out

- Output: every `printf` is dropped, and Render returns its lines instead.
- Time: clock readings are an arbitrary sequence; syscall 2 stores the next of them.
- Null arguments: the checks for null VMs, code, messages and widgets at the head of functions.
- Interpreter.Executive.VmRun: speaks of the VMs on which the run returns; a run that loops for ever has no final state. Termination is proved for programs with forward jumps, the recovery bound for all.
- ListMachine: programs whose code ends within 10 bytes of 2^32 are excluded where `pc` would wrap inside an instruction; the interpreter itself is modelled with wrapping.
- Code generation of DIV, JZ, LOAD, STORE, SYSCALL and HALT through exit: their bytes count for the emission bound and the generator's loop; the source marks several as stand-ins (the bytes of DIV are in Codegen.DivisionBytes, what they compute is not), and the correctness theorem trusts no register they would have to compute. DIV and JZ are outside its fragment.
- CompilerCorrect.CompilerCorrect: covers registers 0 to 128 as operands; an immediate load or slot operation on a higher register number addresses memory outside the 0x400-byte frame, and slot arithmetic into r0 writes the saved `rbp`.
- Calling the emitted code: executable memory, exception handling, the clobbering of RBX that the calling convention forbids, and the read-back at `jit_stack - 8`, which is not the slot the epilogue writes.
- Locks: a critical section is one step to enter and one to leave; fairness and blocking are not modelled. The lookup of the one channel by name in `kernel64/modular.c` is left out.
- Keyboard.KbdDriver.PollEvent: the scan code table is a parameter; its entries are not listed.
- Mouse packets: decoding the four bytes is left out; the ring carries whatever events arrive.
- Sockets: what is received, and whether a send succeeds, is arbitrary input. Addresses and ports of the sockets are left out.
- Dns.ParseResponse: buffers on which the source would read past its 512 bytes are excluded, as that has no defined result; the same holds for Dhcp.ScanOptions and NetStack.Exchange. Dns.WalkOverrunsIff and Dhcp.ScanOverrunsIff say which they are.
- Dns.QuerySkips: labels of 256 bytes and more, whose length does not fit the byte it is stored in.
- Dns.BuildQuery: host names that do not fit the buffer are excluded for the same reason.
- Lease: IPv6 fields, and the fixed length of interface names.
- Desktop.Destroy: freeing the memory of the window; the node is only unlinked.
- WindowManager: titles, transparency, visibility and depth; moving, resizing and snapping one window; and the wrap-around of window ids after 2^31 windows.
- Timeline: the `on_rewind` callback.
- Dedup: reading the file and computing SHA-256; a block is its digest, and equal digests are equal blocks.
- Integer overflow of counters kept in `int` (recoveries, unstable ticks, lease timers): none is reached by fewer than 2^31 steps.
- Process and sandbox tables, module and driver registries, ARP and NDP tables, cryptography, and everything graphical: easy tables or input and output.
