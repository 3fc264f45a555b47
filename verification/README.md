# A model of r0db

r0db runs RISC Zero guest programs under GDB. A guest is a RV32IM program with a sparse
memory of 256-word pages, standard input, three output streams and a few environment calls. Every
step is charged: its opcode, what the call adds, and every memory page that the current segment
touches for the first time, with the pages of the 32-ary page table above it. A segment holds 2^20
cycles; a step that no longer fits opens the next. A debugger attaches to the machine: it steps it,
continues it, steps through a range, sets breakpoints and watchpoints, and reads and writes memory.

This project models that machine and proves what it promises. All layers share one state.

| module | what it models |
|---|---|
| `Words` | 32-bit words, bytes, the little-endian view |
| `SessionCycle` | the cycle and paging accountant, as a value and as the class that is updated in place |
| `Greedy`, `Packing` | what the accountant computes over runs: the greedy packing of steps into segments |
| `PagedMemory`, `FlatMemory` | paged memory with watchpoints, in place, and the flat bytes that it refines |
| `Machine` | the machine as a value; one step, the environment calls and system calls as functions |
| `Simulator` | the same in place, each method proved to compute its function |
| `Trace`, `Steps` | the history of a step and what follows from it: charge, trigger, bytes |
| `Opcodes`, `Effects`, `SystemCalls` | what a step leaves in registers, memory and streams: for every instruction, every environment call, and every system call by the text of its name |
| `Runs`, `Halting`, `Hanging`, `Calls` | runs of steps: conservation, fewest segments, the clock, exit codes, and which steps never end; what a call will do, foreseen from registers and memory |
| `Transparency`, `Sessions`, `Watching` | debugging changes nothing that the guest computes; watchpoints over sessions |
| `DebugLoop`, `Stops`, `Debugger` | the run loops, as functions of a poll schedule, what each reason to stop says, and the same in place |
| `ByteRuns`, `Streams`, `Outputs`, `Inputs` | what goes in and out: outputs exact, input conserved and exactly when some is lost |
| `Hashing`, `Bigint` | the SHA call as a fold that composes, and what the BIGINT call leaves in memory |
| `Loader`, `Transfers`, `Serializer` | the ELF loader, serving the ELF file in pieces, the word serializer and its decoder |

Classes stand where the program updates structures in place, and their methods carry its loops. A
method's contract equates its result and the new state with a function of the old one. The theorems
are lemmas about those functions.

How the program is read:

- Address sums and register arithmetic wrap around at 2^32, as in the release profile. A debug build
  panics there instead. `usize` counters do not overflow. The step counter of the run loops is
  unbounded here; that it is 32 bits wide in the program does not change when it polls, since 1024
  divides 2^32.
- The RV32IM executor is a deterministic function from the registers and the instruction word to a
  plan: retire, trap, or one load or store with what follows from it. It fetches the instruction a
  second time, and refuses misaligned data accesses. SHA compression, modular multiplication, UTF-8
  validity and the random source are functions too. They are the fields of `Host`, and every
  theorem holds for all of them.
- The byte buffers that the SHA call casts to words on its stack (src/vm/simulator.rs:280) are taken to be
  aligned for it. The cast checks this and panics otherwise; where a compiler puts them is not modelled.
- Theorems that speak of charges are about machines that have their accountant, as the constructor of
  `Simulator` gives it to them.
- `Mem.log` is a history: the unprivileged accesses since the watch trigger was last cleared. Nothing
  that the machine computes depends on it; the theorems about charges and watchpoints speak of it.
- A panic (`Panicked`, `Crashed`) is an outcome like any other, and so is a charge that is retried for
  ever (`Hung`). `CallbackStep` and `Step` must not be called in that last case, where the program
  never returns; `HungIff` says exactly when that is.
- `fuel` in `WaitForStopReason` and `RunToCompletion` bounds the steps until the loop returns. That
  some bound exists is all it asks, and `LoopReturnsIff` says exactly when one does.
- The connection is a schedule of polls, each silent, with data, or broken. All schedules are covered.

Where the obvious claim is false, the exact condition is proved instead:

- the accountant's retry loop does not always stop: SHA calls of 14341 blocks or more and software calls
  with a reply of a million words hang the program, no instruction of another kind can, and the exact
  threshold of either call is known before it (`RetryStopsIff`, `HungIff`, `CallHungAfterRunIff`,
  `ShaHangs`, `ShaCanHang`, `SoftwareHangs`, `SoftwareCanHang`, `OnlySoftwareAndShaHang`);
- dirty pages need not be resident (`DirtyResidentIff`, `DirtyNotResident`);
- loads that are not aligned do not read their bytes (`ReadsBytesIffAligned`, `MisalignedRead`);
- an access that ends just where a watched range starts triggers it (`MatchesIffOverlapsOrTouches`);
- a failed step leaves its pages to be charged later (`FailedStepLeavesPages`);
- input can be consumed without reaching the guest, and what it takes for that is known before the step
  (`StepConsumes`, `LosesIff`, `InputConserved`, `ReaderLoses`);
- the rest of standard input may not fit the register that reports it (`AvailIsRest`);
- a debugger read past the end of the address space reads nothing and claims the whole (`ReplyIff`);
- a debugger request for a piece of the file can make the program panic (`CopyRangeToBuf`, `PiecesJoin`);
- strings of 2^32 bytes and more do not survive serialization (`RoundTripIff`, `TruncationClash`);
- after BIGINT memory need not hold the product (`BigintHoldsIff`, `BigintCanLoseBytes`).

The comment at src/debug/mod.rs:30 promises an empty copy for an offset at or past the length of the
buffer. The code compares the offset with the length of the data, and `EmptyIffDone` follows the code.

## Model

| member | source | states |
|---|---|---|
| SessionCycle.ParentApproachesRoot | src/vm/session_cycle.rs:104 | the parent expression is 212992 + p / 32, its one fixed point is the root 219862, pages below the root go strictly up and pages above strictly down without passing it, and the 32-bit product and sum do not overflow |
| SessionCycle.ClosureIsLeast | src/vm/session_cycle.rs:82-106 | the pages that walks from `s` visit are the least parent-closed set that contains `s` |
| SessionCycle.ClosureUnion | src/vm/session_cycle.rs:82-106 | the walks of two sets of pages visit the union of what each visits, so neither order nor grouping matters |
| SessionCycle.ClosureWithin | src/vm/session_cycle.rs:82-106 | touching fewer pages visits no more pages and costs no more |
| SessionCycle.CostIsSum | src/vm/session_cycle.rs:92-102 | adding up page by page along a walk without duplicates gives the cost of the set of pages, in whatever order they were met |
| SessionCycle.GuestWalk | src/vm/session_cycle.rs:84-105 | from any guest page the walk visits the page, three more below or at the root, and the root, each above the last, for 5130 cycles at most |
| SessionCycle.TwoAccessStepSettles | src/vm/session_cycle.rs:77-155 | a step with one fetch and one other access to guest pages costs 10262 cycles at most in an empty segment and always completes |
| SessionCycle.WarmAtMostCold | src/vm/session_cycle.rs:82-138 | what a pass charges in any segment is at most what it charges in an empty one, and a rollover makes the charge the cold one |
| SessionCycle.RetryStopsIff | src/vm/session_cycle.rs:77-155 | the retry loop stops if and only if the step fits the current segment warm or an empty one cold; it then needs two passes at most and opens one segment at most |
| SessionCycle.RetryCanHang | src/vm/session_cycle.rs:77-155 | a step with more cycles of its own than an empty segment holds is retried for ever, whatever the books |
| SessionCycle.SettleSound | src/vm/session_cycle.rs:137-153 | a completed step keeps both page sets parent-closed and the segment within budget, and clears the pages of the step |
| SessionCycle.SessionClock | src/vm/session_cycle.rs:43-67 | the session clock grows by exactly the warm charge, or on a rollover by at least the cold charge and the overhead 1721 and by less than that plus the warm charge; and the segment stays within budget |
| SessionCycle.SessionCycleCount.UpdateCurSegmentTotalCycle | src/vm/session_cycle.rs:43-60 | opens a segment exactly when the total would exceed 2^20, else adds the cycles, and changes nothing else |
| SessionCycle.SessionCycleCount.GetSessionCycle | src/vm/session_cycle.rs:62-67 | 2^20 cycles for each full segment, 1721 of overhead, and the current segment's cycles |
| SessionCycle.Constants | src/vm/session_cycle.rs:10-28 | the overhead is 1721 cycles, a segment 2^20, its budget 1046855; the root page costs 754 and any other 1094 |
| SessionCycle.SessionCycleCount.CallbackReadMem | src/vm/session_cycle.rs:69-71 | adds one page to the reads of the step |
| SessionCycle.SessionCycleCount.CallbackWriteMem | src/vm/session_cycle.rs:73-75 | adds one page to the writes of the step only, not to its reads |
| SessionCycle.SessionCycleCount.WalkFrom | src/vm/session_cycle.rs:83-105 | one walk with its early break at a known or collected page collects exactly the page's ancestors that are not known: stopping misses nothing |
| SessionCycle.SessionCycleCount.WalkPages | src/vm/session_cycle.rs:82-106 | for any order of the touched pages: exactly the closure less the known pages, without duplicates, at exactly the sum of their costs (the source writes this walk twice, at lines 82-106 and 111-135) |
| SessionCycle.SessionCycleCount.TryCharge | src/vm/session_cycle.rs:78-154 | one pass of the retry loop: both walks, the budget test, and the sets updated only when the step fits |
| SessionCycle.SessionCycleCount.CallbackStep | src/vm/session_cycle.rs:77-155 | the in-place loop computes the two-pass outcome and keeps the invariant of the page sets; its precondition is the exact condition to stop |
| Greedy.PackIsOptimal | src/vm/session_cycle.rs:47-59 | greedy packing into consecutive segments uses the fewest segments, for any budget test that passes from a segment to its parts |
| Greedy.ClosedByNext | src/vm/session_cycle.rs:47-59 | a segment is closed only by an item that no longer fits it |
| Packing.ChargeIsAppend | src/vm/session_cycle.rs:77-155 | with the pages already paid for known, the pass fits exactly when the segment with the step appended fits, and leaves the books of that longer segment |
| Packing.LedgerIsPacking | src/vm/session_cycle.rs:77-155 | over any run of steps the accountant completes if and only if every step fits an empty segment, and its books are then those of the greedy packing of the run |
| Packing.Conservation | src/vm/session_cycle.rs:43-155 | in every reachable state the current segment's cycles are the cost of its resident pages, of its dirty pages, and the steps' own cycles, with the step that opened the segment; the page sets are the closures of what those steps touched |
| Packing.SegmentsPack | src/vm/session_cycle.rs:47-60 | the segments are the run cut into consecutive pieces, each within budget: no step is lost or charged twice |
| Packing.FinishedSegmentsAreFull | src/vm/session_cycle.rs:47-60 | with steps of at most `cold` cycles, a finished segment is charged more than the budget less `cold` |
| Packing.FinishedCycles | src/vm/session_cycle.rs:47-67 | so the cycles of the finished segments lie between their number times those two bounds |
| Packing.FewestSegments | src/vm/session_cycle.rs:77-155 | no other way of cutting the run into consecutive segments within budget has fewer of them |
| Packing.DirtyResidentIff | src/vm/session_cycle.rs:73-75 | dirty pages are all resident if and only if every page written in the segment is on the walk of a page read in it |
| Packing.DirtyNotResident | src/vm/session_cycle.rs:73-75 | a one-step run after which a dirty page is not resident |
| Runs.RunIsPacked | src/vm/session_cycle.rs:77-155 | over a whole run of the machine its books are the accountant's over the charges that its steps' histories give |
| Runs.RunConservation | src/vm/session_cycle.rs:77-155 | conservation and the budget bound, for every run of completed steps of the machine |
| Runs.RunFewestSegments | src/vm/session_cycle.rs:77-155 | a run of the machine opens the fewest segments possible for its charges |
| Runs.ClockAdvances | src/vm/session_cycle.rs:62-67 | the session clock strictly increases with every completed step, by the step's own cycles at least |
| Runs.FreshClock | src/vm/session_cycle.rs:62-67 | the session clock starts at 1721 |
| Runs.RunClock | src/vm/session_cycle.rs:62-67 | after a completed run it shows 2^20 cycles for each finished segment of the packing, 1721, and the cost of the open segment |
| Runs.InstructionCost | src/vm/session_cycle.rs:158-200 | a completed step other than an ecall costs 10262 cycles at most in an empty segment |
| Runs.InstructionRunSegments | src/vm/session_cycle.rs:43-60 | over a run without ecalls the cycles of the finished segments lie between 1036594 and 1046855 times their number |
| FlatMemory.ReadIsFlat | src/vm/memory.rs:52-113 | an aligned load is the little-endian composition of the bytes at its address, refused exactly outside guest memory, and changes no byte |
| FlatMemory.WriteIsFlat | src/vm/memory.rs:115-183 | an aligned store changes exactly its 1, 2 or 4 bytes, to the low bytes of the data |
| FlatMemory.AllocationInvisible | src/vm/memory.rs:62-65 | neither a page allocation nor noting an access changes any word |
| FlatMemory.GuestMemory | src/vm/memory.rs:8-9 | guest memory is from 0x400 to 0x0C000000, both included, in pages of 1024 bytes |
| FlatMemory.PerformIsFlat | src/vm/memory.rs:52-184 | any sequence of aligned loads and stores of mixed sizes replies and ends as on the flat byte memory that the paged one represents |
| FlatMemory.StoresAreFlat | src/vm/memory.rs:52-184 | for the bytes alone only the stores need be aligned |
| FlatMemory.BlankIsZero | src/vm/memory.rs:62-65 | a fresh memory is zero at every address |
| FlatMemory.ReadsBytesIffAligned | src/vm/memory.rs:94-111 | a load agrees with the bytes at its address in every memory if and only if it is aligned |
| FlatMemory.MisalignedRead | src/vm/memory.rs:94-111 | for each misaligned address and size, a memory in which the load replies 1 while the bytes at the address are zero |
| PagedMemory.Memory.CheckWatchpoints | src/vm/memory.rs:24-50 | leaves a trigger that is set, else sets it to the first matching watchpoint in list order; nothing else changes |
| PagedMemory.Memory.ReadMemWithPrivileges | src/vm/memory.rs:52-113 | the in-place load is the load of the value model: reply, allocation, page charge and trigger |
| PagedMemory.Memory.WriteMemWithPrivileges | src/vm/memory.rs:115-183 | the in-place store is the store of the value model |
| PagedMemory.Memory.WithSessionCycleCallback | src/vm/memory.rs:20-22 | connects the accountant and changes no page, watchpoint or trigger |
| Trace.FollowsRecords | src/vm/memory.rs:52-183 | whatever accesses a computation makes, its memory's trigger and books are those that its history accounts for: first match and exact pages |
| Trace.EcallFollows | src/vm/simulator.rs:163-172 | every environment call is replayable from its history of accesses |
| Steps.RanIsCharged | src/vm/simulator.rs:100-161 | a completed step is a fetch, a body replayable from its history, and the charge of opcode and extra cycles |
| Steps.StepHistory | src/vm/simulator.rs:100-161 | a completed step charges exactly the pages of its fetch and of its unprivileged accesses, and its trigger is the first match among them |
| Steps.StepMemory | src/vm/simulator.rs:100-161 | the bytes after a completed step are those before under the stores of its history, and nothing else |
| Steps.FailedStepLeavesPages | src/vm/simulator.rs:100-151 | a failed step is not charged and leaves in the books exactly the pages of its fetch and of its accesses, to be charged with what comes next |
| Steps.StepKeepsWatches | src/vm/simulator.rs:100-161 | no step, whatever it returns, changes the list of watchpoints |
| Steps.WatchReport | src/vm/simulator.rs:112-157 | a completed step reports a watchpoint if and only if some unprivileged access after the trigger was cleared matches one, and reports the first |
| Steps.FirstHitIff | src/vm/memory.rs:24-50 | what it reports, spelled out: the first access that matches any watchpoint, under the kind of the first watchpoint in the list that it matches |
| Steps.MatchesIffOverlapsOrTouches | src/vm/memory.rs:36-48 | for any range: an access matches if and only if its kind is watched and it shares a byte with the range up to its computed end, ends just where the range starts, or straddles the start of a range whose computed end is not above it |
| Steps.WatchEndIff | src/vm/memory.rs:37 | the computed end is the end of the range if and only if the range does not wrap around, and else lies below its start |
| Steps.ExitTouchesNothing | src/vm/simulator.rs:174-188 | only the halting calls yield an exit code, and they touch no memory |
| Steps.ExecuteHistory | src/vm/simulator.rs:133-143 | an instruction other than an ecall makes one or two accesses, the first of them the second fetch |
| Opcodes.CycleTable | src/vm/session_cycle.rs:158-200 | the cycles of every instruction word by its fields: two for XORI, the right shifts by an immediate, ORI, ANDI and the nine register forms XOR, SRL, SRA, OR, AND, DIV, DIVU, REM and REMU; one for the other nine register forms, the other immediates and the listed opcodes; none elsewhere |
| Opcodes.EveryWordHasFields | src/vm/session_cycle.rs:158-161 | every word has such fields, and they are the ones that the program masks out |
| Opcodes.EcallWords | src/vm/simulator.rs:117 | the environment calls are the words of opcode 0x73 with funct3 0, funct7 0 and rs2 0 or 1 |
| Effects.InstructionCycles | src/vm/simulator.rs:133-150 | a completed step of another instruction takes exactly the cycles of the table |
| Steps.OpcodeCycleBound | src/vm/session_cycle.rs:158-200 | every legal instruction takes one cycle or two |
| Steps.InstructionsNeverHang | src/vm/session_cycle.rs:77-200 | no instruction other than an ecall can hang the accountant |
| Halting.ExitIff | src/vm/simulator.rs:174-188 | a completed step reports Halted or Paused if and only if it is that call, with the second byte of A0 as its code, whatever the watchpoints |
| Halting.HaltedForEver | src/vm/simulator.rs:174-188 | a halted or paused machine that is stepped again, any number of times, reports the same exit, and no register, byte or stream changes |
| Effects.HaltEffect | src/vm/simulator.rs:174-188 | a completed halt or pause leaves all registers, the program counter, every byte and every stream as they were |
| Effects.InputEffect | src/vm/simulator.rs:190-192 | the input call adds 4 to the program counter and changes nothing else |
| Effects.ShaEffect | src/vm/simulator.rs:263-327 | a completed SHA call adds 4 to the program counter, keeps the registers, overwrites the 32 bytes at A0 with the fold of the blocks at A2 and A3 into the state at A1 as they all were before, and takes 73 cycles for each block and one |
| Effects.BigintEffect | src/vm/simulator.rs:329-384 | a completed big-integer call adds 4 to the program counter, keeps the registers, and changes exactly the eight bytes at A0, A0 + 4, ..., to the low bytes of the words of the product of the operands at A2 and A3 modulo the one at A4; it takes ten cycles |
| Effects.CallNumbers | src/vm/simulator.rs:163-172 | an environment call completes only with a T0 of 0 to 4 |
| Effects.InstructionEffect | src/vm/simulator.rs:133-150 | any other instruction fails exactly when the executor's plan for the word traps or its access is misaligned or outside guest memory; it leaves the registers of the plan, after a load those resumed with the little-endian bytes at its address, and changes memory by its store alone |
| Effects.FetchIsFlat | src/vm/simulator.rs:100-105 | the word that is decoded is the one at the program counter, by the bytes of memory |
| SystemCalls.Dispatch | src/vm/syscall.rs:16-238 | each of the twelve names is its own call, the two verification names the same one |
| SystemCalls.NamesDiffer | src/vm/syscall.rs:16-238 | names of one length differ in a letter |
| SystemCalls.OtherNames | src/vm/syscall.rs:243 | every other name is no call |
| SystemCalls.RandomEffect | src/vm/syscall.rs:16-24 | by the name at A2: the reply is the next bytes of the random source, A0 and A1 are 0 |
| SystemCalls.CycleCountEffect | src/vm/syscall.rs:26-32 | A0 is the low word of 2^20 for each finished segment, 1721, and the current segment's cycles, as before the step; A1 and the reply are zero |
| SystemCalls.PanicEffect | src/vm/syscall.rs:34-52 | a step by that name never completes |
| SystemCalls.GetenvEffect | src/vm/syscall.rs:54-92 | if the A4 bytes at A3 name a variable, the reply is its value, cut or filled with zeros, A0 its length; else A0 is 0xFFFFFFFF and the reply zero; A1 is 0 |
| SystemCalls.ReadEffect | src/vm/syscall.rs:94-139 | the reply is the whole words taken from standard input, A1 the bytes after them, A0 the number of all; it takes what there is up to A4 bytes |
| SystemCalls.ReadAvailEffect | src/vm/syscall.rs:141-154 | A0 is the low word of the length of what is left of standard input, A1 and the reply are zero |
| SystemCalls.WriteEffect | src/vm/syscall.rs:156-180 | the A5 bytes at A4 are appended to the output numbered 1, 2 or 3 in A3, and to no other; A0, A1 and the reply are zero |
| SystemCalls.LogEffect | src/vm/syscall.rs:182-206 | the A4 bytes at A3 are appended to standard output; A0, A1 and the reply are zero |
| SystemCalls.VerifyEffect | src/vm/syscall.rs:208-215 | A0, A1 and the reply are zero |
| SystemCalls.ArgcEffect | src/vm/syscall.rs:217-222 | A0 is the number of arguments, A1 and the reply are zero |
| SystemCalls.ArgsEffect | src/vm/syscall.rs:224-241 | the reply is the argument numbered in A3, cut or filled with zeros, A0 its length, A1 zero |
| SystemCalls.UnknownEffect | src/vm/syscall.rs:243 | a call by any other name changes no register but the program counter, and the reply is zero |
| SystemCalls.SoftwareCycles | src/vm/simulator.rs:194-261 | a completed software call takes one cycle for each word of the reply, rounded up to four words, and three more |
| SystemCalls.PanicsIff | src/vm/simulator.rs:163-384 | a step panics exactly in a SYS_READ for fewer bytes than its buffer holds, or from standard input with too few for the buffer or for more than a word beyond it, and in a big-integer call whose operands have no product; everything else that goes wrong is an error |
| Hanging.HungIff | src/vm/session_cycle.rs:77-155 | a step of the machine hangs if and only if it gets as far as its charge and the charge fits neither what is left of the current segment nor an empty one |
| Hanging.HungAfterRunIff | src/vm/session_cycle.rs:77-155 | after a completed run the next step hangs if and only if it gets as far as its charge and its charge alone does not fit a segment |
| Hanging.LargeStepHangs | src/vm/session_cycle.rs:77-155 | a step with more cycles of its own than a segment holds hangs, whatever the books |
| Hanging.ShaHangs | src/vm/simulator.rs:263-327 | every SHA call of 14341 blocks or more whose blocks and states lie in guest memory hangs |
| Hanging.ShaCanHang | src/vm/simulator.rs:263-327 | a machine with fresh books whose first step hangs |
| Calls.SyscallGrants | src/vm/syscall.rs:11-244 | each system call has an answer if and only if its registers, the text and bytes it names and the input left are as the dispatch asks, and then fills the buffer and reads exactly the pages of those bytes |
| Calls.SoftwareForeseen | src/vm/simulator.rs:194-261 | a software call completes if and only if pointer, name, call and reply are in order beforehand, and then touches exactly the pages of name, call and reply, for one cycle for each word of the reply, rounded up to four, and two more |
| Calls.ShaForeseen | src/vm/simulator.rs:263-327 | a SHA call completes if and only if its ranges lie in guest memory, and then touches exactly the pages of those ranges, for 73 cycles for each block |
| Calls.SoftwareHungIff | src/vm/simulator.rs:194-261 | a software call hangs if and only if it gets as far as its charge and neither the current segment nor an empty one has room for those pages and cycles; it returns if and only if it gets there and one has |
| Calls.ShaHungIff | src/vm/simulator.rs:263-327 | and so for a SHA call |
| Calls.CallHungAfterRunIff | src/vm/session_cycle.rs:77-155 | after a completed run either call hangs if and only if it completes and the walks to its pages with its cycles cost more than a segment holds: the exact threshold, from registers and memory |
| Calls.SoftwareHangs | src/vm/simulator.rs:194-261 | every software call that is in order hangs when its reply has more words than a segment has cycles |
| Calls.SoftwareCanHang | src/vm/simulator.rs:194-261 | a machine with fresh books whose software call hangs |
| Hanging.ShortStepsNeverHang | src/vm/session_cycle.rs:77-155 | a step with clear books never hangs when 5130 cycles for each possible page of its accesses and its own cycles fit a segment |
| Hanging.OnlySoftwareAndShaHang | src/vm/simulator.rs:100-172 | with clear books only software calls and SHA calls can hang |
| Simulator.Simulator.constructor | src/vm/simulator.rs:29-52 | a machine at the entry point over any memory, rewired to the machine's own accountant if it had one, with zero registers, empty streams and empty books |
| Simulator.Simulator.Write | src/vm/simulator.rs:54-61 | host data joins the end of standard input; any other descriptor is refused |
| Simulator.Simulator.ReadGuestName | src/vm/simulator.rs:219-237 | the unbounded scan for the name stops and computes the recursive reading of a zero-terminated string |
| Simulator.Simulator.Getenv | src/vm/syscall.rs:54-92 | the in-place call is the one of the value model, errors included |
| Simulator.Simulator.ReadStdin | src/vm/syscall.rs:94-139 | the in-place SYS_READ, with its buffer, tail word, cursor and assertions, is the one of the value model |
| Simulator.Simulator.EmitBytes | src/vm/syscall.rs:156-200 | the in-place SYS_WRITE and SYS_LOG are those of the value model |
| Simulator.Simulator.HandleSyscall | src/vm/syscall.rs:11-244 | dispatch on the name, with the reply buffer filled in place, is the one of the value model |
| Simulator.Simulator.EcallHalt | src/vm/simulator.rs:174-188 | the in-place call is the one of the value model, the illegal kind included |
| Simulator.Simulator.EcallSoftware | src/vm/simulator.rs:194-261 | pointer check, name, call and byte-wise copy out are those of the value model, with every way to fail |
| Simulator.Simulator.EcallSha | src/vm/simulator.rs:263-327 | the in-place SHA call is the one of the value model |
| Simulator.Simulator.FoldBlocks | src/vm/simulator.rs:285-308 | the block loop is the recursive fold |
| Simulator.Simulator.EcallBigint | src/vm/simulator.rs:329-384 | the in-place call is the one of the value model |
| Simulator.Simulator.Ecall | src/vm/simulator.rs:163-172 | dispatch on T0, an unknown call refused |
| Simulator.Simulator.Execute | src/vm/simulator.rs:133-143 | fetch again, carry out the executor's plan on the same memory |
| Simulator.Simulator.Step | src/vm/simulator.rs:100-161 | the in-place step is the step function, state and result, and keeps the invariant of the books; its precondition excludes only a charge that is retried for ever |
| Hashing.ShaBlocksFold | src/vm/simulator.rs:285-308 | the block loop succeeds if and only if all blocks lie in guest memory, and is then the fold of the compression function over consecutive 64-byte blocks, read from the words that the pointers point into; no pointer wraps |
| Hashing.ShaIsFold | src/vm/simulator.rs:263-327 | for all pointers, aligned or not: the call completes if and only if state, blocks and output lie in guest memory, and stores big-endian the fold over the blocks as they were before, wherever the output lies; no other byte changes |
| Hashing.ShaCycles | src/vm/simulator.rs:326 | a completed call is charged exactly 73 cycles per block: the 32-bit product cannot overflow |
| Hashing.BigEndianRoundTrip | src/vm/simulator.rs:280-314 | a digest survives being stored and read back |
| Hashing.ShaComposes | src/vm/simulator.rs:263-327 | `n` blocks and then `k` more leave the digest that `n + k` at once leave, if the intermediate digest lies clear of the blocks still to be read |
| Bigint.OperandBytes | src/vm/simulator.rs:336-347 | an operand is the 32 bytes of memory at its word |
| Bigint.BigintCompletesIff | src/vm/simulator.rs:329-384 | the call completes if and only if the operation is 0, the operands lie in guest memory and have a product, and the places for it lie in guest memory |
| Bigint.BigintHoldsIff | src/vm/simulator.rs:329-384 | after a call that completes, memory holds the product of its operands if and only if the upper three bytes of each word were right before the call: only low bytes are stored |
| Bigint.BigintCanLoseBytes | src/vm/simulator.rs:369-381 | a machine with operands 16 and 16 in memory, for which the call completes and 256 is not in memory afterwards |
| ByteRuns.ReadBytesSees | src/vm/syscall.rs:160-170 | reading bytes one by one succeeds if and only if they lie in guest memory, and yields them |
| ByteRuns.WriteBytesGranted | src/vm/simulator.rs:242-258 | storing bytes one by one succeeds if and only if they lie in guest memory |
| ByteRuns.WriteBytesLands | src/vm/simulator.rs:242-258 | and then changes exactly the bytes named |
| Streams.RunGrows | src/vm/syscall.rs:94-206 | over any run, failed steps included, input data stays, the cursor only advances and outputs only grow |
| Streams.EmitsMemory | src/vm/syscall.rs:156-206 | SYS_WRITE and SYS_LOG are granted if and only if the bytes lie in guest memory and the descriptor is an output, and append just those bytes to it |
| Streams.StepDelivers | src/vm/syscall.rs:94-139 | a completed SYS_READ with a visible buffer puts exactly the consumed input in the guest's hands, buffer then tail in A1, and A0 counts it |
| Streams.OtherStepsKeepCursor | src/vm/syscall.rs:11-244 | no other step consumes input |
| Inputs.StepConsumes | src/vm/syscall.rs:94-139 | whatever a step returns, SYS_READ takes from standard input what it finds up to what it asks for, by the registers and the input left, and no other step takes any |
| Inputs.LosesIff | src/vm/syscall.rs:94-139 | a condition on the machine before the step (registers, name, input left, guest memory bounds, room for the charge) that holds if and only if the step takes input and then fails, hangs or stores it nowhere |
| Inputs.InputConserved | src/vm/syscall.rs:94-139 | over any run, failed steps included, with the host writing in between: standard input is what it was followed by what the host wrote, and what the guest was given, end to end, is standard input from the old cursor to the new if and only if that condition holds before no step |
| Inputs.ReaderLoses | src/vm/simulator.rs:239-258 | a machine that reads a word into a null pointer with four bytes waiting: they are taken, and the guest gets none |
| Streams.AvailIsRest | src/vm/syscall.rs:141-154 | SYS_READ_AVAIL returns the length of the rest if and only if that fits 32 bits |
| Outputs.NameFoundIff | src/vm/simulator.rs:219-237 | the scan finds `name` if and only if `name`, free of zeros, stands at the pointer before a zero, all in guest memory |
| Outputs.NameMissingIff | src/vm/simulator.rs:219-237 | it fails if and only if no zero lies between the pointer and the end of guest memory; it changes no byte |
| Outputs.StepSends | src/vm/syscall.rs:156-206 | every step, completed or not, extends each output by exactly the bytes that the SYS_WRITE or SYS_LOG it reaches names for it, if they lie in guest memory, as they stood before the step, and else by nothing |
| Outputs.RunSends | src/vm/syscall.rs:156-206 | over any run, failed steps included, each output is what it was, followed by those bytes in order |
| Transparency.StepTwins | src/vm/simulator.rs:100-161 | machines that differ only in watchpoints, trigger and allocated zero pages stay so over a step, and return the same, watchpoint reports apart |
| Transparency.DebuggingTwins | src/vm/memory.rs:52-113 | setting watchpoints or the trigger and reading with privilege make such a difference only |
| Sessions.SessionTransparent | src/debug/debugger.rs:62-257 | after any sequence of waits, memory reads, watchpoint and breakpoint changes and interrupts the machine is a twin of the undebugged one after as many steps, which returned the same step by step, watchpoint reports apart |
| Sessions.DisconnectTransparent | src/debug/mod.rs:66-99 | and a disconnect before the program ends, followed by running on, ends as the undebugged run: same result, same number of steps, same registers, bytes, streams and cycle books |
| Sessions.RunOnTwins | src/debug/mod.rs:71-98 | running to completion ends alike on twins |
| Sessions.WatchpointsActAsSet | src/debug/breakpoints.rs:37-69 | on a list without duplicates, adding and removing are set insertion and removal, report whether they changed it, and keep it without duplicates |
| Sessions.ReplyIff | src/debug/readwrite.rs:40-56 | the count that a debugger read reports is the number of bytes it read, the request cut down to guest memory, if and only if the request ends within the address space; else it reads nothing and reports all (for lengths that fit a word) |
| Watching.SessionWatches | src/debug/breakpoints.rs:37-69 | over any session the list stays free of duplicates and holds nothing but what was there or was added |
| Watching.ReportedIsSet | src/vm/memory.rs:24-50 | whatever a step reports is a watchpoint in the list that one of its accesses matches |
| Watching.RemovedNeverFires | src/debug/breakpoints.rs:53-69 | in a session, once a watchpoint is removed and as long as it is not added again, whatever else is done, it is not in the list, and any report of any further step is explained by another one |
| Sessions.PeekSees | src/debug/readwrite.rs:35-57 | a debugger read shows the bytes of memory and changes only which pages are allocated |
| Sessions.PokeWrites | src/debug/readwrite.rs:59-76 | a debugger write changes exactly the bytes up to the first that is outside guest memory |
| Sessions.PokeGranted | src/debug/readwrite.rs:59-76 | it succeeds if and only if there is no such byte, and leaves books, history, watchpoints and trigger alone |
| DebugLoop.LoopReturnsIff | src/debug/debugger.rs:130-244 | Continue and RangeStep return after `n` steps with an event if and only if step `n` is the first reason to stop with all polls silent, or a poll at step `n`, a multiple of 1024, is the first to find data; the machine is the one after `n` single steps |
| DebugLoop.ContinueStops | src/debug/debugger.rs:130-185 | Continue stops at the first step that fails, yields an exit code or lands on a breakpoint, with the matching reason |
| DebugLoop.RangeStepStays | src/debug/debugger.rs:186-244 | RangeStep stays in [start, end) and off breakpoints before its last step, reports DoneStep if and only if that step leaves the range without an exit code, and takes one step for an empty range |
| Stops.StopReasons | src/debug/debugger.rs:88-244 | the event of the first stop, in every mode, from the last step alone: Exited with a code iff it was at a halting call with that code; SwBreak iff at a pausing call or landed without an exit on a breakpoint (in a range step inside the range); Watch iff it completed and that is the first hit of its history; DoneStep iff it landed off breakpoints in step mode, or out of the range; Terminated iff it failed; step mode makes one step |
| Stops.WaitReturns | src/debug/debugger.rs:62-257 | a wait passes on exactly the byte that a poll finds, or a broken connection; after an interrupt it makes no step and reports the interrupt; else it ends at a poll, at a multiple of 1024 steps, or at the first stop |
| Stops.BreakpointsActAsSet | src/debug/breakpoints.rs:19-33 | breakpoints are a set that the two commands insert into and remove from, and nothing else changes |
| Stops.ModeFollows | src/debug/debugger.rs:259-264 | the mode is that of the last resumption, or interrupted since |
| Stops.RunOnIff | src/debug/mod.rs:71-98 | the run after a disconnect ends exactly at the first step that fails, panics, pauses or halts, with its result; watchpoint reports do not end it |
| DebugLoop.FirstStopUnique | src/debug/debugger.rs:130-244 | there is one first stop |
| DebugLoop.WaitsRefineSteps | src/debug/debugger.rs:130-244 | waits cut short by incoming data and re-entered, any number of times, make the run of single steps up to its first reason to stop, and report it |
| DebugLoop.WaitsReachStop | src/debug/debugger.rs:130-244 | conversely, waits on a connection that does not break and is silent in the end, however often cut short before, report the first stop of the run after as many steps |
| DebugLoop.WaitsStopIff | src/debug/debugger.rs:130-244 | on such a connection the waits report a stop after `n` steps if and only if it is the first stop of the run |
| DebugLoop.SchedulesInvisible | src/debug/debugger.rs:130-244 | two series of waits under different poll schedules that end with a stop end with the same stop in the same machine |
| Debugger.Debugger.WaitForStopReason | src/debug/debugger.rs:62-257 | the in-place wait, in all four modes, returns what the wait of the value model returns, in its machine |
| Debugger.Debugger.RunLoop | src/debug/debugger.rs:130-244 | the in-place loop of Continue and RangeStep |
| Debugger.Debugger.OnInterrupt | src/debug/debugger.rs:259-264 | sets the mode and nothing else |
| Debugger.Debugger.AddSwBreakpoint | src/debug/breakpoints.rs:19-25 | set insertion, reporting whether it was new |
| Debugger.Debugger.RemoveSwBreakpoint | src/debug/breakpoints.rs:27-33 | set removal, reporting whether it was there |
| Debugger.Debugger.AddHwWatchpoint | src/debug/breakpoints.rs:37-51 | the in-place insertion of the session model |
| Debugger.Debugger.RemoveHwWatchpoint | src/debug/breakpoints.rs:53-69 | the in-place search and removal of the session model |
| Debugger.Debugger.ReadAddrs | src/debug/readwrite.rs:35-57 | fills the front of the buffer with what a peek shows, leaves the rest, reports the count that the program's wrapping arithmetic gives, and refuses a start outside guest memory |
| Debugger.Debugger.WriteAddrs | src/debug/readwrite.rs:59-76 | the in-place loop is the poke of the session model |
| Debugger.Debugger.ReadRegisters | src/debug/readwrite.rs:13-20 | returns all registers and the program counter, unchanged |
| Debugger.Debugger.WriteRegisters | src/debug/readwrite.rs:22-29 | replaces all registers and the program counter and nothing else |
| Debugger.Debugger.RunToCompletion | src/debug/mod.rs:71-98 | the in-place loop is the run of the session model: watchpoints do not end it |
| Loader.LoadElf | src/vm/loader.rs:26-89 | succeeds if and only if entry, segment count and every loadable segment are acceptable; memory is then the bytes it held under the in-order overlay of the segments, file bytes then zeros, nothing below guest memory |
| Loader.LoadsIff | src/vm/loader.rs:31-40 | a file loads if and only if its entry point is aligned and below 0x0C000000, it has a table of at most 256 headers, and the loadable ones are acceptable |
| Loader.AcceptableIff | src/vm/loader.rs:41-85 | a segment is acceptable if and only if its sizes and addresses are in bounds, every word of it lies at an aligned address below 0x0C000000, and every byte that is to come from the file does |
| Loader.LoadSegment | src/vm/loader.rs:40-86 | one segment: accepted if and only if its sizes, addresses and file bytes are in bounds, and then overlaid byte by byte up to its size rounded up to a word |
| Transfers.CopyRangeToBuf | src/debug/mod.rs:33-42 | panics if and only if the offset is within the data and offset plus length overflows 64 bits; else copies the piece that request and buffer allow and leaves the rest of the buffer |
| Transfers.CopyToBuf | src/debug/mod.rs:23-27 | copies the common length and leaves the rest of the buffer |
| Transfers.PiecesJoin | src/debug/host_io.rs:74-89 | a client that reads piece by piece gets through without a panic if and only if no request overflows from where those before it reach, and then has the data in order, as far as the requests reach |
| Transfers.DownloadsAllIff | src/debug/host_io.rs:74-89 | and has the whole file if and only if no request overflows and they reach its end |
| Transfers.EmptyIffDone | src/debug/mod.rs:29-38 | a request for something is answered with nothing if and only if the offset is at or past the end |
| Serializer.DecodeEncode | src/serializer/mod.rs:116-299 | a type-directed decoder inverts the encoding on any stream that starts with it and returns what follows |
| Serializer.UniqueDecoding | src/serializer/mod.rs:68-299 | of one type, encodings in any streams that agree come from equal values with equal rests |
| Serializer.RoundTripIff | src/serializer/mod.rs:173-191 | the round trip holds if and only if no string or byte string in the value has 2^32 bytes or more |
| Serializer.TruncationClash | src/serializer/mod.rs:188-191 | two byte strings of different lengths that are encoded to the same stream but for what follows |
| Serializer.EncodeOkIff | src/serializer/mod.rs:243-284 | encoding is refused if and only if a sequence or map in the value has no announced length or 2^32 elements or more |
| Serializer.RefusalReasons | src/serializer/mod.rs:243-284 | the error is only for want of an announced length, the panic only for 2^32 elements or more |
| Serializer.IntegerFormat | src/serializer/mod.rs:116-159 | integers are two's complement, in one word up to 32 bits, else in two or four from the least significant |
| Serializer.BytesFormat | src/serializer/mod.rs:41-51 | strings are the length in a word and the bytes four to a word from the least significant, with zeros to fill the last |
| Serializer.ToVec | src/serializer/mod.rs:68-78 | returns the encoding, or the error that the encoding meets |
| Serializer.Serializer.WritePaddedBytes | src/serializer/mod.rs:41-51 | appends the bytes in little-endian words, the last padded with zeros |
| Serializer.Serializer.SerializeU32 | src/serializer/mod.rs:148-150 | appends one word |
| Serializer.Serializer.SerializeU64 | src/serializer/mod.rs:152-155 | appends the low word and then the high word |
| Serializer.Serializer.SerializeU128 | src/serializer/mod.rs:157-159 | appends four words from the least significant |
| Serializer.Serializer.SerializeBytes | src/serializer/mod.rs:173-191 | appends the length truncated to a word and the padded bytes |
| Serializer.Serializer.SerializeValue | src/serializer/mod.rs:116-299 | appends the encoding of the value to the stream, or stops with its error |

## Left out

- The TCP listener, the packet loop and traits of gdbstub, the monitor command and its text: plumbing, represented by poll schedules and session commands.
- The constants that src/debug/host_io.rs returns for opening, `fstat` and `readlink`, and the mode setters of src/debug/step.rs: each assigns one value; a session's `Resume` carries the mode.
- The instruction semantics of rrs-lib, the compression function and big-integer arithmetic: foreign code, abstract here. The `last_register_write` field of its hart state is not part of this model.
- ELF header parsing, class, machine and type checks: `LoadElf` starts from parsed headers, at the check of the entry point.
- The host's end of the outputs (src/vm/simulator.rs:75-94): draining a cursor that the guest does not see.
- Single register access (src/debug/readwrite.rs:83-132): one array element at a time of what `ReadRegisters` and `WriteRegisters` do whole.
- Error texts, and the printing of exit codes.
- Debugger writes to memory and registers are not commands of the transparent sessions: they change the program on purpose. `PokeWrites` says what they change.
- Simulator.Simulator.Random: the random bytes are those of an arbitrary source; failure of the source is not modelled.
- Serializer.Serializer.SerializeValue: floating-point numbers are integers of their bit patterns, and how a Rust type drives the serializer is given by the value's shape.
- SessionCycle.SessionCycleCount.WalkPages: the two copies of the walk in the source, for reads and for writes, are one method called twice; a hash set's order of iteration is any order.
