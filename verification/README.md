# Lineluya kernel and browser runtime: verified models

This project models the stateful cores of the Lineluya system, a small x86-64 kernel with a
browser-hosted runtime, and proves what they keep over every run. The components share no
state; each has its own modules.

* **Frame and address-space ownership** (`OwnershipSpec`, `OwnershipMachine`,
  `OwnershipTheorems`, `OwnershipRun`, `FrameTable`, `FrameLifecycle`, `FrameRun`). The lock-free reference counts and the
  owner word with its "retiring" bit are a step machine: any number of threads, one step per
  atomic access, a weak compare-exchange that may fail spuriously. Every interleaving is
  linearizable to an abstract counter or owner object; conservation, "last exactly once" and
  retirement exclusion are proved on the abstract object and carried over. `FrameTable` holds
  the same operations as code on arrays, and `FrameLifecycle` runs page tables, fork,
  copy-on-write, unmap, exit and the frame allocator as clients.
* **Context switch** (`ContextSwitch`, `ContextSchedule`). The assembly routine runs instruction
  by instruction on registers, memory, CR3 and RFLAGS; whole schedules over tasks with disjoint
  contexts and stacks resume exactly, under the callee-saved rule of section 3.2.1 of the
  System V AMD64 psABI.
* **Browser SMP runtime** (`SmpRuntime`, `RunQueue`). A futex mutex and a 256-slot ring in shared
  memory, one step per `Atomics` access, with Int32 wrap-around written out.
* **System calls** (`SelectCall` with `FdBits`, `PollCall`, `EpollList`, `EpollTheorems`,
  `Credentials`, `Dirents`, `ProgramBreak`). The waiting calls take what the environment does at
  each scan as a finite list of moments and answer `Blocked` when they still wait at its end, so
  a statement about all lists is a statement about every finite run.
* **Text editor** (`FlatText`, `TextEditor`, `EditorTheorems`). An array of lines with a row and
  a column is a flat text with one offset.
* **MADT parser** (`Madt`, `MadtReport`). Section 5.2.12 of ACPI 6.5.
* **Socket receive buffer** (`SocketBuffer`). A list of chunks is a byte stream.

For the machines, a lemma exhibits a run: `OwnershipRun.CloneRefused`, `FrameRun.OneLife`,
`ContextSchedule.ThereAndBack`, `EpollTheorems.CopyOutlivesOriginal`, `RunQueue.FullRingReorders`.

Where the code meets a property only under a condition, the condition is proved to be exact and a
lemma shows a failing input.

* A dequeue returns the pid whose turn it is if and only if at most 256 are pending
  (`SmpRuntime.DequeueReads`), because the enqueue never tests for a full ring:
  `RunQueue.FullRingReorders` is a run of one thread that gets the newest of 257 pids first. The
  counters are never reset either: `RunQueue.WrapAnswersEmpty` is a run after which a pending pid
  is answered with -1.
* The epoll list stays a map under create if and only if the process watches nothing yet under the
  new descriptor that it also watches elsewhere (`EpollTheorems.CreateView`). Ctl accepts any
  descriptor, so it can: `EpollTheorems.EarlyCtlDuplicates`. The condition for fork
  (`EpollTheorems.ForkView`) is always met by the kernel as it stands: nothing calls the
  fork routine, pids are never reused, and exit removes a pid's entries.
* After a granted growth of the break, in any address space, the pages up to it are mapped if and only
  if no sum wrapped at 64 bits or they were mapped before (`ProgramBreak.BackedUnlessWrapped`);
  `ProgramBreak.WrappingCall` is a call that wraps and gets no page.
* What the MADT parser reads is the table's own if and only if the fields of every walked entry lie
  inside the table (`Madt.TableOnly`), and what it reports is if and only if every reported one does
  (`MadtReport.ReportOnly`); `Madt.ShortEntryReadsOn` has a 46-byte table whose report is not its own.
* A receive answers zero if and only if a close message is the last of those that set the
  handle's phase and every byte has been returned (`SocketBuffer.EndOfStream`). A close message alone is
  not enough: an error message after it hides the end of stream (`SocketBuffer.ErrorHidesClose`).
* The editor's lines stay newline-free if and only if no single-character key is itself a newline
  (`EditorTheorems.CleanUnlessNewlineTyped`). A real key press never is; only an event made by a
  script can be (`EditorTheorems.ScriptedNewlineBreaksLine`), and the repository makes none.

## Model

| member | source | states |
|---|---|---|
| `OwnershipSpec.DecideRefines` | kernel-core-chirho/src/frame_ownership_chirho.rs:118-354 | what each operation decides on a word is what the abstract counter or owner object answers, and the word it stores encodes the abstract object's new value; bit arithmetic on the retiring bit included |
| `OwnershipSpec.CallsOnWords` | kernel-core-chirho/src/frame_ownership_chirho.rs:118-354 | word by word what each operation stores and answers, with the sentinel 2^32 - 1, the limits 2^32 - 2 and 2^32 - 1, and the retiring word 2^63 + 1 |
| `OwnershipSpec.OutsideTable` | kernel-core-chirho/src/frame_ownership_chirho.rs:122-200 | frame numbers beyond the table have no count, and retaining or releasing them answers "unmanaged" |
| `OwnershipMachine.InvRun` | kernel-core-chirho/src/frame_ownership_chirho.rs:118-349 | in every interleaving every word stays encodable and no slot appears or disappears |
| `OwnershipMachine.StepIsAtomic` | kernel-core-chirho/src/frame_ownership_chirho.rs:118-349 | one atomic access either leaves memory alone or is one whole call of the abstract object, with its answer |
| `OwnershipMachine.Linearizable` | kernel-core-chirho/src/frame_ownership_chirho.rs:118-349 | for every schedule, with spurious failures, running the calls one at a time in the order they took effect gives the same answers and the same memory |
| `OwnershipMachine.ResponsesAreHistory` | kernel-core-chirho/src/frame_ownership_chirho.rs:118-349 | each thread's responses, in order, are exactly its calls in that history, plus at most the one it is about to return |
| `OwnershipMachine.DecidedTookEffect` | kernel-core-chirho/src/frame_ownership_chirho.rs:118-349 | every answer is the one an atomic call would have given at an instant inside that very call |
| `OwnershipTheorems.SequentialFrame` | kernel-core-chirho/src/frame_ownership_chirho.rs:118-192 | on a legal history a count is retains minus releases, below the sentinel, with one last-reference answer per trip to zero |
| `OwnershipTheorems.FrameConservation` | kernel-core-chirho/src/frame_ownership_chirho.rs:118-192 | the same for every interleaving of any number of threads |
| `OwnershipTheorems.DeviceSlotsNeverChange` | kernel-core-chirho/src/frame_ownership_chirho.rs:118-200 | an unmanaged slot keeps the sentinel in every interleaving |
| `OwnershipTheorems.AddressSpaceEndsOnce` | kernel-core-chirho/src/frame_ownership_chirho.rs:241-349 | the owner word is a count or "retiring with one owner"; at most one call ends the address space, exactly one if the word is zero; owners recorded are those retained and not dropped |
| `OwnershipTheorems.RetirementExcludesOwners` | kernel-core-chirho/src/frame_ownership_chirho.rs:248-349 | after a successful begin no retain, release or second begin succeeds unless a successful cancel came in between |
| `OwnershipTheorems.EndedIsForever` | kernel-core-chirho/src/frame_ownership_chirho.rs:248-349 | after the call that ended an address space no later call changes its owners |
| `OwnershipRun.CloneRefused` | kernel-core-chirho/src/frame_ownership_chirho.rs:450-464 | a run: a retirement begins, a clone is refused meanwhile, the retirement finishes |
| `FrameTable.LeafFrameOwnership.TryNew` | kernel-core-chirho/src/frame_ownership_chirho.rs:71-115 | refuses the first empty or reversed range, an empty list and a failed reservation; otherwise a slot is managed exactly when some range contains it, and every managed slot starts at zero |
| `FrameTable.TotalIsCount` | kernel-core-chirho/src/frame_ownership_chirho.rs:74-88 | for ranges that do not overlap the managed total is the number of frames inside some range |
| `FrameTable.LeafFrameOwnership.Update` | kernel-core-chirho/src/frame_ownership_chirho.rs:118-192 | the retry loop on the array, whatever other threads store before any of its accesses: it answers and stores what one atomic call on the word found at its last access would, which for a change is a compare-exchange that did not fail; it touches no other slot, and goes on only if every attempt failed spuriously or found the word changed |
| `FrameTable.AddressSpaceOwnerCount.Update` | kernel-core-chirho/src/frame_ownership_chirho.rs:248-354 | the same for the owner word; operations that do not retry need one access |
| `FrameTable.FreshTableConserves` | kernel-core-chirho/src/frame_ownership_chirho.rs:71-192 | a table built from ranges, in every interleaving: slots inside a range equal retains minus releases, slots outside never change |
| `FrameLifecycle.LifeIsSound` | kernel-core-chirho/src/frame_ownership_chirho.rs:466-510 | over every run of map, fork, copy-on-write, unmap and exit, a count is live entries, unreleased entries of retired trees and references in transit, and a frame without references is free, about to be freed or in one thread's hands |
| `FrameLifecycle.CountBoundsLiveEntries` | kernel-core-chirho/src/frame_ownership_chirho.rs:466-510 | the count bounds the live entries of a frame and equals them when no thread is busy with it and no retired tree still holds it |
| `FrameLifecycle.LifeConserves` | kernel-core-chirho/src/frame_ownership_chirho.rs:118-192 | the table's part in a lifecycle run is a run of the interleaved machine, so the count is retains minus releases and "last reference" is answered exactly once per return to zero |
| `FrameLifecycle.FreeFramesAreUnmapped` | kernel-core-chirho/src/frame_ownership_chirho.rs:155-192 | no frame on the free list is mapped, held by a retired tree, counted, carried or about to be freed again |
| `FrameLifecycle.SoleReference` | kernel-chirho/src/mm_chirho/pagetable_chirho.rs:354-367 | the count of a mapped frame is 1 if and only if that entry is its only one, no retired tree holds it and no thread carries it, so copy-on-write may write in place |
| `FrameLifecycle.LastReferenceIsExclusive` | kernel-core-chirho/src/frame_ownership_chirho.rs:155-192 | releases never underflow, so exit never has to roll back; whoever is answered "last reference" is alone with an unmapped frame that is neither free nor about to be |
| `FrameRun.OneLife` | kernel-core-chirho/src/frame_ownership_chirho.rs:466-510 | a run: one frame is mapped, shared by fork, unmapped once, released by an exit and freed, with counts 1, 2, 1, 0 |
| `ContextSwitch.Processor.SaveOld` | kernel-chirho/src/arch_chirho/context_switch_chirho.rs:85-121 | the save half stores the state after a plain return into the old context and touches nothing else |
| `ContextSwitch.Processor.RestoreNew` | kernel-chirho/src/arch_chirho/context_switch_chirho.rs:130-168 | the restore half loads exactly the stored registers, consumes the pending root, and writes the flags word with its own value and the slot below the new stack pointer |
| `ContextSwitch.Processor.SwitchContext` | kernel-chirho/src/arch_chirho/context_switch_chirho.rs:85-168 | the forty instructions amount to `Switched` |
| `ContextSchedule.AllowedIsValid` | kernel-chirho/src/arch_chirho/context_switch_chirho.rs:28-48 | every switch of an allowed schedule meets the routine's demands |
| `ContextSchedule.ContextLayout` | kernel-chirho/src/arch_chirho/context_switch_chirho.rs:94-120 | where in the saved context each register lies |
| `ContextSchedule.SwitchStep` | kernel-chirho/src/arch_chirho/context_switch_chirho.rs:85-168 | one switch keeps every parked task's registers and stack intact and the target continues as it was parked |
| `ContextSchedule.RunInv` | kernel-chirho/src/arch_chirho/context_switch_chirho.rs:85-168 | so does every schedule of switches and task creations |
| `ContextSchedule.BootInv` | kernel-chirho/src/arch_chirho/context_switch_chirho.rs:37-48 | it starts from any world with one running task |
| `ContextSchedule.CreateStep` | kernel-chirho/src/sched_chirho/task_chirho.rs:406-419 | a task created by the running one, kernel task or forked, is parked with exactly what creation stored, and disturbs no other |
| `ContextSchedule.ResumesExactly` | kernel-chirho/src/arch_chirho/context_switch_chirho.rs:37-48 | a task resumed after any interleaving continues at its return address with entry RSP + 8, the same callee-saved registers and flags, and every stack word unchanged |
| `ContextSchedule.StartsExactly` | kernel-chirho/src/process_chirho/process_core_chirho.rs:294-329 | a task created at any step starts, at the first switch to it, with a kernel task at its entry point, the top of its stack and flags 0x200, a forked one at the trampoline with the FS base in rbx, flags 0x2 and, at its stack pointer, the parent's system call frame with 0 in rax, bit 9 of r11 set, the given user stack if any, and thirteen words unchanged; all other registers are 0 and the rest of the stack is as its creator left it |
| `ContextSchedule.RootStep` | kernel-chirho/src/arch_chirho/context_switch_chirho.rs:130-142 | the root in use after a switch is the pending one, or else the one its caller had loaded; nothing is pending then |
| `ContextSchedule.PendingRootUsedOnce` | kernel-chirho/src/arch_chirho/context_switch_chirho.rs:56-66 | a pending CR3 is loaded by the switch it was set for and by no other, and stays the root as long as no running task sets another one or, as exec does, loads one itself |
| `ContextSchedule.ThereAndBack` | kernel-chirho/src/arch_chirho/context_switch_chirho.rs:37-48 | a run: a task creates another one, switches to it and is switched back to |
| `SmpRuntime.MutualExclusion` | web-chirho/smp-runtime-chirho.js:182-250 | in every interleaving the lock word is 1 exactly while one thread is between try-lock and the unlock's store, and never two are, whatever wake-ups and timeouts occur |
| `SmpRuntime.WaitStep` | web-chirho/smp-runtime-chirho.js:182-204 | a waiter sleeps only while the word says locked, and otherwise tries again |
| `SmpRuntime.QueueRun` | web-chirho/smp-runtime-chirho.js:226-283 | the ring holds the newest 256 pids offered, in lock order, at every step of every interleaving |
| `SmpRuntime.DequeueReads` | web-chirho/smp-runtime-chirho.js:257-283 | a dequeue reads the newest pid offered through its slot, which is the one whose turn it is if and only if at most 256 are pending |
| `SmpRuntime.FirstInFirstOut` | web-chirho/smp-runtime-chirho.js:257-283 | with at most 256 pending, pids dequeued followed by the ring's contents are the pids enqueued, in lock order |
| `SmpRuntime.EmptyAnswer` | web-chirho/smp-runtime-chirho.js:270-282 | a dequeue answers -1 if and only if every offered pid has been taken when it compares head and tail, or the pid it reads is itself -1 |
| `SmpRuntime.WrapHidesPids` | web-chirho/smp-runtime-chirho.js:257-264 | in every run, the store that publishes a pid keeps the queue visibly nonempty if and only if fewer than 2^31 - 1 were published before |
| `RunQueue.SoloEnqueue` | web-chirho/smp-runtime-chirho.js:257-264 | one thread's six steps in a row are an enqueue, and offer that pid |
| `RunQueue.SoloDequeue` | web-chirho/smp-runtime-chirho.js:270-283 | one thread's five or seven steps in a row are a dequeue, take the front pid and leave its answer |
| `RunQueue.Runtime.Lock` | web-chirho/smp-runtime-chirho.js:246-250 | the retry loop gets the lock at the first try that finds it free, whatever other threads do before each try |
| `RunQueue.Runtime.EnqueueProcess` | web-chirho/smp-runtime-chirho.js:257-264 | the code, waiting included, does what those steps do to the memory it found when it got the lock |
| `RunQueue.Runtime.DequeueProcess` | web-chirho/smp-runtime-chirho.js:270-283 | likewise, answer included |
| `RunQueue.FullRingReorders` | web-chirho/smp-runtime-chirho.js:257-283 | a run of one thread from the start: 0 to 256 enqueued, one dequeue, and 256 comes first |
| `RunQueue.WrapAnswersEmpty` | web-chirho/smp-runtime-chirho.js:257-283 | a run of one thread from the start with one pid offered and not taken, on which a dequeue answers -1 and takes nothing |
| `SelectCall.DeadlineIsExact` | kernel-chirho/src/syscall_chirho.rs:4610-4644 | the deadline is the first tick of a millisecond at which the whole timeout has passed, counted in microseconds or nanoseconds, or the last tick there is; strictly after entry for a nonzero timeout |
| `SelectCall.ValidTimeoutIs` | kernel-chirho/src/syscall_chirho.rs:4631-4637 | which timeouts are refused |
| `FdBits.WithAdds` | kernel-chirho/src/syscall_chirho.rs:4898-4924 | setting a bit adds exactly that descriptor |
| `FdBits.FdIsBit` | kernel-chirho/src/syscall_chirho.rs:4901-4907 | descriptor fd is bit fd mod 8, from the least significant one, of byte fd / 8 |
| `FdBits.ClearLowFive` | kernel-chirho/src/syscall_chirho.rs:4936-4955 | clearing bits 0 to 4 removes exactly the descriptors below 5 and `count_ones` counts them |
| `SelectCall.MarkReady` | kernel-chirho/src/syscall_chirho.rs:4652-4712 | the scan answers the requested, ready descriptors and their number |
| `SelectCall.RequestedExactly` | kernel-chirho/src/syscall_chirho.rs:4652-4746 | the descriptors asked about are exactly those set in the caller's memory below nfds and below 128 |
| `SelectCall.OutputSizes` | kernel-chirho/src/syscall_chirho.rs:4652-4742 | the copied-out sets have (nfds + 7) / 8 bytes, up to 128 and 16 |
| `SelectCall.ScanRead` | kernel-chirho/src/syscall_chirho.rs:4898-4958 | the same after pipe priority, and the clamp to one never changes the count |
| `SelectCall.PipePriorityKeepsSome` | kernel-chirho/src/syscall_chirho.rs:4936-4955 | pipe priority empties an answer only if it was empty |
| `SelectCall.Pass` | kernel-chirho/src/syscall_chirho.rs:4984-5055 | one scan and the two tests after it: ready, then signal, then deadline, with the copy-out failures |
| `SelectCall.Wait` | kernel-chirho/src/syscall_chirho.rs:4984-5197 | the call ends at the first scan at which it may, with that scan's answer |
| `SelectCall.Select` | kernel-chirho/src/syscall_chirho.rs:4555-5197 | argument errors in order, else the wait |
| `SelectCall.BlockedExactly` | kernel-chirho/src/syscall_chirho.rs:5014-5060 | a call is still waiting if and only if at no moment was a descriptor the caller set ready, a signal pending or the deadline reached |
| `SelectCall.ReportsExactly` | kernel-chirho/src/syscall_chirho.rs:4898-4982 | the sets reported are those set and ready, without descriptors 0 to 4 when a pipe among 5 to 15 is ready with another |
| `SelectCall.ZeroIsEarned` | kernel-chirho/src/syscall_chirho.rs:5014-5055 | a zero had a deadline, empty scans and no signal at every scan, the deadline reached at the last and at no earlier one, and empty output sets |
| `SelectCall.NullTimeoutNeverZero` | kernel-chirho/src/syscall_chirho.rs:4608-4611 | without a timeout zero is never answered |
| `SelectCall.PositiveCountsWrittenBits` | kernel-chirho/src/syscall_chirho.rs:4898-4982 | a positive answer is the number of bits written, all requested, below nfds and the scan limit and inside the bytes copied |
| `SelectCall.ReadyBeatsSignalBeatsTimeout` | kernel-chirho/src/syscall_chirho.rs:5015-5055 | readiness found at the ending scan wins over a signal, a signal over the deadline |
| `PollCall.Scan` | kernel-chirho/src/syscall_chirho.rs:4376-4387 | every entry's `revents` is this scan's, nothing else changes, and the count is the number of nonzero ones |
| `PollCall.Poll` | kernel-chirho/src/syscall_chirho.rs:4395-4504 | argument errors in order, else the entries and count of the first scan that ends the wait |
| `PollCall.ZeroIsEarned` | kernel-chirho/src/syscall_chirho.rs:4408-4492 | a zero had a non-negative timeout, no ready entry at any scan, and a deadline that passed, or a zero timeout |
| `PollCall.ZeroIsNeverEarly` | kernel-chirho/src/syscall_chirho.rs:4408-4492 | a zero comes at the first scan at which the tick has reached entry plus timeout (or 2^64 - 1), or at once for a probe |
| `PollCall.BlockedExactly` | kernel-chirho/src/syscall_chirho.rs:4376-4492 | a call is still waiting if and only if at no moment was an entry ready or entry plus timeout reached, and it is no probe |
| `PollCall.NegativeNeverZero` | kernel-chirho/src/syscall_chirho.rs:4393-4415 | a negative timeout never answers zero |
| `PollCall.CountMatchesOneScan` | kernel-chirho/src/syscall_chirho.rs:4456-4503 | all entries returned come from one scan and the count is the number with nonzero `revents` |
| `EpollList.EpollTable.Fork` | kernel-chirho/src/syscall_chirho.rs:5221-5246 | appends the child's copies of the parent's entries |
| `EpollList.EpollTable.Exit` | kernel-chirho/src/syscall_chirho.rs:5248-5260 | keeps the other processes' entries, in order |
| `EpollList.EpollTable.Create` | kernel-chirho/src/syscall_chirho.rs:5262-5361 | hands out the next descriptor and appends its seeds |
| `EpollList.EpollTable.Ctl` | kernel-chirho/src/syscall_chirho.rs:5364-5484 | add overwrites or appends, delete filters, modify rewrites, an unknown code changes nothing and fails |
| `EpollList.SeededKeys` | kernel-chirho/src/syscall_chirho.rs:5262-5292 | one seed per descriptor the owner watches elsewhere, and no other |
| `EpollList.SeedIsFirst` | kernel-chirho/src/syscall_chirho.rs:5268-5287 | of several watches of one descriptor the first in the list is the one copied |
| `EpollTheorems.AddView` | kernel-chirho/src/syscall_chirho.rs:5364-5484 | add keeps keys distinct and is a map update |
| `EpollTheorems.ModView` | kernel-chirho/src/syscall_chirho.rs:5364-5484 | modify is a map update of an existing key only |
| `EpollTheorems.ModStores` | kernel-chirho/src/syscall_chirho.rs:5462-5480 | modify stores the mask given, with EPOLLOUT added for sockets from descriptor 13 on |
| `EpollTheorems.DelView` | kernel-chirho/src/syscall_chirho.rs:5364-5484 | delete removes exactly that key |
| `EpollTheorems.ExitView` | kernel-chirho/src/syscall_chirho.rs:5248-5260 | exit removes exactly that process's keys |
| `EpollTheorems.ForkView` | kernel-chirho/src/syscall_chirho.rs:5221-5246 | fork keeps keys distinct if and only if the child has no namesake of a parent's watch; then it adds an equal copy |
| `EpollTheorems.CreateView` | kernel-chirho/src/syscall_chirho.rs:5262-5361 | create keeps keys distinct if and only if no seed's key exists; then it adds one watch per descriptor, copied from an existing one |
| `EpollTheorems.EarlyCtlDuplicates` | kernel-chirho/src/syscall_chirho.rs:5262-5484 | two adds, one of them under the descriptor handed out next, and a create leave a key twice in the list |
| `EpollTheorems.StepRefinesMap` | kernel-chirho/src/syscall_chirho.rs:5200-5484 | every allowed operation on the list is the operation on the map |
| `EpollTheorems.RunsStayMaps` | kernel-chirho/src/syscall_chirho.rs:5200-5484 | over every run the list denotes a map |
| `EpollTheorems.EvolvesAlone` | kernel-chirho/src/syscall_chirho.rs:5200-5484 | a process's watches survive any run in which it does not act itself |
| `EpollTheorems.ForkGivesEqualView` | kernel-chirho/src/syscall_chirho.rs:5221-5246 | after a fork the child watches exactly what the parent watches |
| `EpollTheorems.CopyOutlivesOriginal` | kernel-chirho/src/syscall_chirho.rs:5221-5484 | a run: create, add, fork and exit of the parent leave the child's copy |
| `Credentials.TaskTable.Call` | kernel-chirho/src/syscall_chirho.rs:6263-6447 | each setter answers and stores what `AfterCall` says; a refused call changes nothing |
| `Credentials.TaskTable.ApplyToThreadGroup` | kernel-chirho/src/syscall_chirho.rs:6230-6241 | all threads of the group, and no other task, get the update |
| `Credentials.GrantedExactly` | kernel-chirho/src/syscall_chirho.rs:6243-6447 | a call is granted if and only if the caller is privileged or already holds every id it asks for, and which ids it then holds |
| `Credentials.RefusedExactly` | kernel-chirho/src/syscall_chirho.rs:6243-6447 | which calls are refused, setter by setter, in terms of the caller's three ids |
| `Credentials.StoredIds` | kernel-chirho/src/syscall_chirho.rs:6263-6447 | what a granted call stores in every task of the group, field by field for the six setters, and what it leaves alone |
| `Credentials.UnprivilegedGainsNothing` | kernel-chirho/src/syscall_chirho.rs:6243-6447 | a caller with nonzero effective uid gives its group no id, of either kind, that the group did not hold |
| `Credentials.OtherGroupsKept` | kernel-chirho/src/syscall_chirho.rs:6230-6241 | a call changes no thread group but the caller's |
| `Credentials.DroppedPrivilegeStaysDropped` | kernel-chirho/src/syscall_chirho.rs:6263-6447 | once no thread of a group holds uid 0, no sequence of calls by any tasks brings it back |
| `Credentials.AgreementKept` | kernel-chirho/src/syscall_chirho.rs:6230-6241 | threads of a group that agree on credentials keep agreeing |
| `Dirents.WriteRecord` | kernel-chirho/src/syscall_chirho.rs:7780-7822 | writes one record's bytes in place and leaves the earlier ones alone |
| `Dirents.GetDents` | kernel-chirho/src/syscall_chirho.rs:7752-7848 | argument, descriptor, stream and copy errors; else the records of the longest prefix of the stream that fits |
| `Dirents.WalkRecovers` | kernel-chirho/src/syscall_chirho.rs:7769-7847 | walking any output by `d_reclen` recovers inode, type, name and next offset of every entry, in order |
| `Dirents.OutputBounded` | kernel-chirho/src/syscall_chirho.rs:7769-7847 | the output fits the capped capacity, and one more entry would not |
| `Dirents.Aligned` | kernel-chirho/src/syscall_chirho.rs:7788-7798 | every record starts 8-byte aligned |
| `Dirents.PaddingIsMinimal` | kernel-chirho/src/syscall_chirho.rs:7788-7798 | a record is its header, name and NUL rounded up to the next multiple of 8 |
| `Dirents.ShortNamesFit` | kernel-chirho/src/syscall_chirho.rs:7788-7798 | names of at most 255 bytes meet the walk's premise |
| `ProgramBreak.AddressSpace.MapRange` | kernel-chirho/src/syscall_chirho.rs:3543-3594 | the growth loop computes `Grow` |
| `ProgramBreak.GrowMaps` | kernel-chirho/src/syscall_chirho.rs:3543-3594 | growing maps the missing pages with zeroed frames, or stops at the first refusal; it succeeds exactly when the range is mapped, and mapped pages keep frame and contents |
| `ProgramBreak.GrowExactly` | kernel-chirho/src/syscall_chirho.rs:3543-3594 | a growth serves the missing pages in order, page i with frame i, up to the first refusal of the allocator or the mapper |
| `ProgramBreak.GrowGranted` | kernel-chirho/src/syscall_chirho.rs:3543-3594 | it succeeds if and only if the first n answers are distinct free frames that could be mapped, n being the number of missing pages |
| `ProgramBreak.ToMapIs` | kernel-chirho/src/syscall_chirho.rs:3538-3543 | the pages to map: those without a frame from the old break to the new one, with a mebibyte more for growths of at most 16 KiB |
| `ProgramBreak.CurrentBrkIs` | kernel-chirho/src/syscall_chirho.rs:3504-3519 | which record of the break counts |
| `ProgramBreak.AddressSpace.SetBrk` | kernel-chirho/src/syscall_chirho.rs:3597-3605 | the task's own record changes if it has one, and the global one always |
| `ProgramBreak.AddressSpace.Brk` | kernel-chirho/src/syscall_chirho.rs:3502-3607 | for every address, sums wrapping at 64 bits: a growth answers the new break if and only if the allocator and the mapper served every missing page, which then has its frame; otherwise the break stays |
| `ProgramBreak.BreakStaysMapped` | kernel-chirho/src/syscall_chirho.rs:3532-3607 | over every run without a wrapping growth, whatever is refused, each page from the start to the break is mapped |
| `ProgramBreak.BackedUnlessWrapped` | kernel-chirho/src/syscall_chirho.rs:3538-3543 | in any space, a granted growth has its pages mapped if and only if no sum wrapped or they were mapped before; one that wrapped maps nothing and moves the break |
| `ProgramBreak.WrapsIs` | kernel-chirho/src/syscall_chirho.rs:3538-3543 | sums wrap at 2^64, and which growths have one that does |
| `ProgramBreak.WrappingCall` | kernel-chirho/src/syscall_chirho.rs:3538-3543 | such a call by a task with a mapped page: the break moves to the last address and no page is mapped |
| `ProgramBreak.PagesKeepFrames` | kernel-chirho/src/syscall_chirho.rs:3543-3594 | over every run a page keeps the frame it once got |
| `TextEditor.Editor.constructor` | web-chirho/desktop-chirho.js:1071-1079 | opening splits at newlines, empty content gives one empty line, cursor at the origin |
| `TextEditor.Editor.KeyDown` | web-chirho/desktop-chirho.js:1175-1256 | the handler does what `Pressed` says for every key and modifier, and a save stores the joined lines |
| `EditorTheorems.PressIsFlatPress` | web-chirho/desktop-chirho.js:1175-1256 | every key acts on the joined text as an insert, a deletion or a move at one offset, vertical arrows, Home and End included; the cursor stays in range and the line list non-empty |
| `EditorTheorems.TypedOrIgnored` | web-chirho/desktop-chirho.js:1180-1255 | keys of one character write themselves unless a modifier is held, control-s saves, and unknown keys do nothing |
| `EditorTheorems.CleanUnlessNewlineTyped` | web-chirho/desktop-chirho.js:1220-1255 | lines stay newline-free if and only if the key is not a printable newline |
| `EditorTheorems.ScriptedNewlineBreaksLine` | web-chirho/desktop-chirho.js:1250-1255 | that key on an empty text: one line before saving, two after opening again |
| `EditorTheorems.SessionIsFlat` | web-chirho/desktop-chirho.js:1175-1256 | so for whole sessions |
| `EditorTheorems.FlatDetermines` | web-chirho/desktop-chirho.js:1072-1079 | text and offset fix lines, row and column: the refinement forgets nothing |
| `EditorTheorems.UnmodifiedIsKept` | web-chirho/desktop-chirho.js:1180-1190 | whenever the modified mark is off, the text is the one last opened or saved |
| `EditorTheorems.SaveThenOpen` | web-chirho/desktop-chirho.js:1180-1190 | saving after any session and opening again gives the same lines |
| `FlatText.SplitJoin` | web-chirho/desktop-chirho.js:1073-1073 | splitting the join of newline-free lines gives them back |
| `FlatText.JoinSplit` | web-chirho/desktop-chirho.js:1073-1073 | joining a split gives the text back, and the pieces hold no newline |
| `Madt.Record` | kernel-chirho/src/arch_chirho/acpi_chirho.rs:498-574 | one entry adds to the report exactly what it says, within the capacities |
| `Madt.ParseMadt` | kernel-chirho/src/arch_chirho/acpi_chirho.rs:466-584 | for every byte string the walk ends, its offset never past the table, and reports the first 256 usable APIC ids in order, the first 8 I/O APICs with their addresses and GSI bases, and the last address override; fields of a short entry are read past it |
| `Madt.DecodeEncode` | kernel-chirho/src/arch_chirho/acpi_chirho.rs:486-577 | any list of well-formed entries is read back from its encoding, whatever follows the table |
| `Madt.TableReadsBack` | kernel-chirho/src/arch_chirho/acpi_chirho.rs:466-577 | a whole table, header and entries, is read back: its length, the address in its header and every entry |
| `Madt.TableOnly` | kernel-chirho/src/arch_chirho/acpi_chirho.rs:486-577 | what is read depends on the table alone if and only if every walked entry of type 0, 1 or 5 has its 8, 12 or 12 bytes inside the table |
| `Madt.ReportIsTables` | kernel-chirho/src/arch_chirho/acpi_chirho.rs:466-584 | under that condition memories with the same header and table have the same report |
| `MadtReport.ReportOnly` | kernel-chirho/src/arch_chirho/acpi_chirho.rs:466-584 | the report is the same whatever lies behind the table if and only if each of the first 256 processors has its id and flag byte in the table, each of the first 8 I/O APICs its 12 bytes, and each override its address |
| `Madt.ShortEntryReadsOn` | kernel-chirho/src/arch_chirho/acpi_chirho.rs:498-516 | a 46-byte table ending in a type 0 entry of length 2: the processor reported is the one behind the table |
| `SocketBuffer.Driver.OpenSocket` | web-chirho/net-driver-chirho.js:97-111 | a fresh handle with an empty buffer |
| `SocketBuffer.Driver.HandleProxyMessage` | web-chirho/net-driver-chirho.js:59-95 | data is appended as a chunk, the other messages only change the phase, an unknown handle nothing |
| `SocketBuffer.Driver.Receive` | web-chirho/net-driver-chirho.js:154-172 | answer and remaining chunks for every size, negative ones included |
| `SocketBuffer.Driver.CloseSocket` | web-chirho/net-driver-chirho.js:174-182 | forgets that handle only |
| `SocketBuffer.ReceiveTakesPrefix` | web-chirho/net-driver-chirho.js:154-172 | a receive takes a prefix of the stream, whatever its size |
| `SocketBuffer.CountIsLength` | web-chirho/net-driver-chirho.js:154-172 | the count is the number of bytes handed over if and only if the answer is not EAGAIN and the size is not negative; never more than asked for |
| `SocketBuffer.AnswerIs` | web-chirho/net-driver-chirho.js:154-172 | which bytes of the first chunk a receive hands over, and with which count, for every size |
| `SocketBuffer.ZeroAnswer` | web-chirho/net-driver-chirho.js:154-172 | exactly when a receive answers zero |
| `SocketBuffer.StreamConserved` | web-chirho/net-driver-chirho.js:72-84 | in every run over all handles, bytes returned, then discarded by closing, then still buffered, are the bytes that arrived, in order |
| `SocketBuffer.PhaseIsHistory` | web-chirho/net-driver-chirho.js:63-93 | in every run, an open handle is in the closed phase if and only if a close message reached it and no connected or error message came after |
| `SocketBuffer.EndOfStream` | web-chirho/net-driver-chirho.js:154-162 | in ordinary runs a receive answers zero if and only if a close message is the last of those that set the phase and every arrived byte has been returned |
| `SocketBuffer.ErrorHidesClose` | web-chirho/net-driver-chirho.js:82-93 | open, close message, error message: everything has been returned and each receive answers EAGAIN |
| `SocketBuffer.ReceiveProgresses` | web-chirho/net-driver-chirho.js:164-171 | in ordinary runs a receive on a non-empty stream returns at least one byte and at most the size |

## Left out

- Weak memory orderings: every atomic access is one sequentially consistent step.
- FrameLifecycle.LifeIsSound: takes the discipline of `kernel-chirho/src/mm_chirho/pagetable_chirho.rs`, `address_space_build_chirho.rs` and `address_space_chirho.rs` as its events: retain before installing, release after removing, and at exit release every leaf of the retired tree before clearing any and freeing frames. While fork copies an entry nobody else changes it, as the exclusive borrow of the source table at `kernel-chirho/src/mm_chirho/address_space_build_chirho.rs:313-319` says.
- Interrupts during the context switch, floating-point state, and memory that is not made of aligned 8-byte words.
- The CloseWait forced-exit block of select (`kernel-chirho/src/syscall_chirho.rs:5062-5169`), which by its own comments is outside the precedence rule; runs through it are not runs of `SelectCall`.
- Readiness of descriptors, the signal queue, the tick counter, user-memory copies, the directory stream, the frame allocator and the page-table walker are environment choices.
- Tracing, logging and yields.
- `epoll_wait`, which ignores the stored mask, and the i32 wrap of the epoll descriptor counter after 2^31 creates.
- Pid allocation, remote calls and futex return codes of the browser runtime.
- RunQueue.Runtime.EnqueueProcess: a call that never finds the lock free within the given tries does not finish; nobody else changes memory while it holds the lock, which is `SmpRuntime.MutualExclusion`. A negative ring index, reached only after the counter wraps, would touch other shared words and is modelled as touching none.
- RunQueue.Runtime.DequeueProcess: likewise.
- Task exit and the reuse of stacks in `ContextSchedule`: tasks are only added. Contexts and stacks are disjoint, which for contexts means pids within the kernel's table of them, and they lie at the same addresses under every root.
- Task creation and exit in `Credentials`: the set of tasks is fixed during a run of calls.
- ProgramBreak.AddressSpace.Brk: sums wrap as in the release build, while a debug build stops instead. The page walker's own refusal of a non-canonical address is not modelled. A frame whose mapping is refused is not returned to the allocator, as in the code. Unmapping by other calls is not part of its runs.
- Surrogate pairs: a text is a sequence of characters, and a printable key is one of them.
- Madt.ParseMadt: memory that is not there reads as zero; the fields of interrupt override and NMI entries, which are only logged, are not read.
- Connection promises, sending and the proxy's own behaviour in the network driver; a message's base64 text stands decoded.
- The rest of the kernel and of the browser desktop: drivers, file systems, sockets, mmap, scheduling policy, rendering.
