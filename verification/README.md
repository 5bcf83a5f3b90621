# Redox kernel: address spaces, scheduling and waiting

A Dafny model of the parts of the Redox kernel where several views of one state must agree, or where
CPUs and threads interleave:

- **Address spaces.** Grants (disjoint page ranges with flags, ownership and an optional file) are kept
  in an ordered set, next to a redundant map of free intervals ("holes") and a page table. mmap, munmap
  and mprotect split grants and edit all three. `Region`, `Holes`, `Grants` and `AddressSpace` define
  this on values; `PageMapper` and `AddrSpaceObject` are the objects the kernel updates in place, each
  method proved to do what the value-level function says.
- **Schemes.** `Funmap` adds the third table, from client regions back to addresses in the scheme that
  serves them. `Capture` maps an unaligned buffer into a scheme as head page, whole pages and tail page.
- **Frames.** `Frames` follows every physical frame over any number of spaces and the allocator, `Clone` the
  contents that cloning a space copies.
- **Scheduler and signals.** `Scheduler` is one context and the events that change it, `Switch` the
  cyclic scan on any number of CPUs, `CpuTime` the time it charges to contexts.
- **Waiting.** `Wait` is the waiter list and the protocol of wait queues and wait maps between atomic
  actions; `Pipe` is the byte queue and its copies to and from user memory; `Futex` the futex list.
- **Kernel page-table lock** (`KernelLock`) and **word-wise memory routines** (`Externs`).

Pages are 4096 bytes and user space ends at 2^47, as on x86_64. Sets and maps ordered by start address
are maps from the start. The page mapper is a map from page to frame and flags whose `map` may fail, the
frame allocator a set of free frames; times, register contents and the answers of other code are
parameters. Protocols are state machines over atomic actions; an action that is not enabled spins.

Where code and expectation differ, the model follows the code, and the exact condition is proved, with an
input that fails where one can be named:

- munmap notifies schemes through the table of the *current* context. Unmapping another space leaves that
  space's own table stale exactly when the request holds a file-backed byte, and spoils the current
  context's table exactly when an unmapped stretch lies in one of its entries
  (`FileMappings.ForeignUnmapExactIff`, `ForeignUnmapSpoilsIff`, `ForeignUnmapGoesWrong`).
- munmap frees owned frames without asking who has borrowed them. No free frame stays mapped exactly when
  no freed frame is shown by a shared page elsewhere (`Frames.UnmapLeavesNoneFreeIff`,
  `BorrowOutlivesOwner`).
- Cloning a space copies what it owns into fresh frames. A page it has borrowed reads the same in the clone
  exactly when the clone does not take the page's own frame as fresh, which it can once the owner has given
  that frame back (`Clones.CloneReadsSameIff`, `StaleBorrowReadsWrong`).
- What a scheme writes to a captured buffer all reaches the client exactly when no byte of the buffer's two
  unaligned ends is the same memory as another byte of the buffer (`Captures.ClientGetsWritesIff`,
  `AliasedCaptureLoses`).
- A capture that fails after it has mapped pages leaves them mapped; the scheme's space is as before exactly
  when there were none (`Captures.CaptureInner`, `FaultingCaptureLeaks`). A zeroed mmap that runs out of
  memory leaves the space consistent exactly when there was no frame or no room in the table to begin with
  (`AddrSpaceObjects.AddrSpace.MmapZeroed`, `HalfMapped`).
- A write to a pipe without a reader fails exactly when the queue is full (`Pipes.BrokenPipeIff`,
  `BrokenPipeMissed`).
- `memcmp` subtracts words with wrap-around. Its sign is the lexicographic order exactly when the difference
  of the deciding words is at least -2^63 and less than 2^63 (`Externs.Memcmp`, `MemcmpMisorders`).
- `UserGrants::contains` misses the last byte of a region, and only that one, because of a strict comparison
  (`Grants.ContainsExact`, `ContainsMissesLastByte`). A user can ask for such an address, by opening a grant
  handle, and is refused. Page-aligned addresses are never a last byte.
- The kernel page-table lock lets `get_mut` yield the mapper to the outermost guard only, but dereferencing
  yields it from every guard: from one at most exactly when the count is at most one
  (`KernelMappers.DerefExclusiveIff`, `NestedLocksBothYield`).

## Model

| member | source | states |
|---|---|---|
| `Regions.PageRangeContaining` | src/scheme/user.rs:546-551 | the page range starts at the page of the address and just covers the buffer |
| `Regions.OccupiesByte` | src/context/memory.rs:512-520 | for aligned bytes, the collision test agrees with membership |
| `Holes.ReserveExact` | src/context/memory.rs:335-363 | reserving a free stretch removes exactly its bytes from the holes and leaves them maximal |
| `Holes.UnreserveExact` | src/context/memory.rs:365-380 | unreserving adds exactly the freed bytes and coalesces on both sides |
| `Holes.HolesUnique` | src/context/memory.rs:236-259 | maximal intervals are determined by the bytes they hold: two such maps over the same bytes are equal |
| `Grants.ContainsExact` | src/context/memory.rs:261-269 | a grant is found iff one covers the address and it is not its last byte, and it is that grant; at an aligned address, iff one covers it |
| `Grants.ContainsMissesLastByte` | src/scheme/proc.rs:1296-1301 | a covered byte that is not found, as an address given for a grant handle can be |
| `Grants.ConflictsExact` | src/context/memory.rs:270-279 | the walk finds exactly the overlapping grants although it stops at the first that does not overlap |
| `Grants.NoConflicts` | src/context/memory.rs:270-279 | nothing is found iff no byte of the request is covered |
| `Grants.EmptyGrantsValid` | src/context/memory.rs:253-259 | a new set of grants has all of user space as its one hole |
| `Grants.HolesDetermined` | src/context/memory.rs:236-259 | two valid grant sets that cover the same bytes have the same hole map |
| `Grants.InsertValid` | src/context/memory.rs:381-412 | inserting a free page range keeps holes exactly the complement of the grants, maximal and disjoint |
| `Grants.TakeValid` | src/context/memory.rs:416-420 | so does taking any grant |
| `Grants.FindFreeRefinesSearch` | src/context/memory.rs:280-299 | first fit on the holes is the brute-force search on the grants: the least free address at or above the minimum, none iff there is none |
| `Grants.FindFreeAtOutcome` | src/context/memory.rs:301-333 | which of region, EINVAL, EEXIST, EOPNOTSUPP or ENOMEM results, for every request, in terms of the grants alone |
| `Grants.HolesAligned` | src/context/memory.rs:236-259 | holes start at page boundaries |
| `AddressSpaces.TableMatchesGrants` | src/debugger.rs:230-291 | the agreement tested by the consistency checker: a page is present iff exactly one grant covers it, with its flags |
| `AddressSpaces.Carve` | src/context/memory.rs:805-831 | splitting a piece out of a grant and keeping the remainders frees exactly the piece and changes no other byte |
| `AddressSpaces.MunmapExact` | src/context/memory.rs:161-208 | coverage and page table lose exactly the request; every other byte keeps flags, ownership, file and frame |
| `AddressSpaces.MunmapNotifiesOnce` | src/context/memory.rs:161-208 | each overlapped file-backed grant is notified once, in order, for its own file, with exactly the bytes it shares with the request, and nothing else is |
| `AddressSpaces.MprotectExact` | src/context/memory.rs:117-160 | Ok iff every overlapped grant accepts; write and execute bits change on exactly the covered bytes, on EACCES exactly those below the first refusing grant; coverage, holes and frames never change |
| `AddressSpaces.MprotectBits` | src/context/memory.rs:117-160 | the same bit by bit, of grants and page table: write and execute as asked for, every other bit, owner, file and frame as before; refused iff a grant is not owned and lacks a permission asked for |
| `AddressSpaces.MprotectNeverWidens` | src/context/memory.rs:755-757 | whether it succeeds or not, no byte of memory that is not owned gains a permission |
| `AddressSpaces.PlaceExact` | src/context/memory.rs:209-232 | a new grant changes exactly the bytes of its region, which were free |
| `AddressSpaces.MmapOutcome` | src/context/memory.rs:209-232 | the result of every mmap call in terms of the grants alone, down to which error |
| `AddressSpaces.MmapProtects` | src/context/memory.rs:22-27 | every page mmap maps is for the user, writable iff asked for and executable iff asked for, with the owner and file given |
| `AddressSpaces.ApplyBytes` | src/context/memory.rs:117-232 | what each operation of a run does to each byte |
| `AddressSpaces.EveryRunConsistent` | src/context/memory.rs:107-232 | after any run of mmap, munmap and mprotect from a new space, page table, grants and holes agree |
| `Paging.PageMapper.MapPhys` | src/context/memory.rs:629-650 | the abstract page table: a map changes one page if the table can grow and none otherwise |
| `Paging.Zeroed` | src/context/memory.rs:651-658 | fresh distinct frames, one per page, in order, for as many pages as there are frames and room; ENOMEM iff not for all; pages mapped by then stay, and a frame is lost iff room ran out first |
| `Paging.Physmap` | src/context/memory.rs:629-650 | consecutive frames at consecutive pages; the kernel panics iff there is not room for all, with those mapped for which there is |
| `Paging.Borrow` | src/context/memory.rs:672-737 | the frames behind the source pages at the destination pages iff there is room for all; otherwise rolled back to both tables as they were |
| `Paging.RemapRange` | src/context/memory.rs:743-754 | flags of exactly the region's pages change, frames stay |
| `Paging.UnmapRange` | src/context/memory.rs:759-790 | exactly the region's pages go, and owned frames go back once each |
| `AddrSpaceObjects.AddrSpace.Reserve` | src/context/memory.rs:335-363 | in place, what `Holes.Reserve` says |
| `AddrSpaceObjects.AddrSpace.Unreserve` | src/context/memory.rs:365-380 | in place, what `Holes.Unreserve` says |
| `AddrSpaceObjects.AddrSpace.Insert` | src/context/memory.rs:381-412 | in place, what `Grants.Insert` says, holes included |
| `AddrSpaceObjects.AddrSpace.Take` | src/context/memory.rs:416-420 | in place, what `Grants.Take` says |
| `AddrSpaceObjects.AddrSpace.Mprotect` | src/context/memory.rs:117-160 | the loop over conflicting grants and their pages does what `AddressSpaces.Mprotect` says, which `MprotectBits` gives bit by bit |
| `AddrSpaceObjects.AddrSpace.Munmap` | src/context/memory.rs:161-208 | the loop does what `AddressSpaces.Munmap` says, notifications included, and frees exactly the owned frames of the request |
| `AddrSpaceObjects.AddrSpace.MmapZeroed` | src/context/memory.rs:209-232 | mmap of fresh memory does what `AddressSpaces.Mmap` says with distinct frames that were free, owned, with the protection asked for on every page, iff there are frames and room; every error is given, and after ENOMEM the space is consistent iff there was no frame or no room at all |
| `AddrSpaceObjects.HalfMapped` | src/context/memory.rs:651-658 | a failed mmap that leaves a page without a grant |
| `AddrSpaceObjects.AddrSpace.MmapBorrow` | src/context/memory.rs:659-661 | mmap of borrowed pages does what `AddressSpaces.Mmap` says, not owned, with the protection asked for on every page, iff a region is found and there is room; a failure changes nothing |
| `AddrSpaceObjects.AddrSpace.Funmap` | src/scheme/user.rs:634-675 | in place, what `FileMappings.FunmapCall` says |
| `FileMappings.FunmapCallExact` | src/scheme/user.rs:634-675 | a call on a stretch inside one entry sends the scheme address of its first byte, unlists exactly the stretch and moves no other byte |
| `FileMappings.NotifyAllExact` | src/context/memory.rs:161-208 | all notifications of one munmap succeed with original addresses and together unlist exactly their bytes |
| `FileMappings.UnmapSendsOriginalAddresses` | src/scheme/user.rs:634-675 | no lookup fails, and each byte is reported where the table was told it comes from, however often it was split |
| `FileMappings.ServedFromReplies` | src/scheme/user.rs:376-402 | in every run the table has a byte at an address iff that is the address in the last reply that mapped it plus its offset, read off the operations, and nothing unmapped it since |
| `FileMappings.RunSendsRepliedAddresses` | src/scheme/user.rs:634-675 | in every run munmap sends a scheme exactly the address it replied with, plus the offset of the part that goes |
| `FileMappings.UnmapTracks` | src/context/memory.rs:161-208 | after the notifications the third table lists exactly the bytes of the remaining file-backed grants |
| `FileMappings.NotifyAnyExact` | src/scheme/user.rs:634-675 | for any table, each notification succeeds iff its stretch lies in one entry, then sends where that table has it, and unlists exactly that |
| `FileMappings.ForeignUnmapExactIff` | src/scheme/proc.rs:1030-1033 | unmapped through another context, the space's own table lists exactly its file-backed bytes iff no file-backed byte was unmapped |
| `FileMappings.ForeignUnmapSpoilsIff` | src/scheme/user.rs:634-675 | the table of the context that unmaps stays as it was, and exact, iff no stretch lies in one of its entries; every address sent is of its own bytes |
| `FileMappings.ForeignUnmapGoesWrong` | src/scheme/proc.rs:1030-1033 | one mapped file page for which both go wrong |
| `FileMappings.ProtectTracks` | src/context/memory.rs:117-160 | splitting grants by mprotect keeps the third table exact |
| `FileMappings.MapExact` | src/scheme/user.rs:376-402 | a reply with an unaligned address is refused; otherwise the file is mapped where mmap puts it, byte for byte at the scheme's address, and every other byte is listed as before |
| `FileMappings.MapTracks` | src/scheme/user.rs:376-402 | the reply to fmap keeps the three tables in agreement |
| `FileMappings.ClientAfter` | src/scheme/user.rs:376-402 | over every run of fmap, mmap, mprotect and munmap the three tables agree |
| `Frames.UnmapPagesExact` | src/context/memory.rs:759-790 | munmap gives back exactly the owned frames it unmaps, none of them free before and none owned after |
| `Frames.UnmapLeavesNoneFreeIff` | src/context/memory.rs:759-790 | after munmap no free frame is mapped anywhere iff no frame it frees is shown by a shared page elsewhere |
| `Frames.BorrowOutlivesOwner` | src/context/memory.rs:759-790 | a borrowed page that still shows a frame after its owner freed it |
| `Frames.ProtectAccounted` | src/context/memory.rs:117-160 | mprotect moves no frame, however it splits grants |
| `Frames.MapZeroedAccounted` | src/context/memory.rs:651-658 | held grows and free shrinks by exactly the frames of the new memory, each owned once |
| `Frames.MapZeroedExact` | src/context/memory.rs:651-658 | exactly one space changes, as mmap says, with the frames in the order given and the protection asked for |
| `Frames.MapSharedAccounted` | src/context/memory.rs:659-664 | a borrowed or physical mapping owns nothing |
| `Frames.MapSharedExact` | src/context/memory.rs:659-664 | exactly one space changes, as mmap says |
| `Frames.TransferAccounted` | src/context/memory.rs:665-737 | a transfer moves ownership: the same frames are held before and after, none is freed |
| `Frames.TransferExact` | src/context/memory.rs:665-737 | page by page in order, the destination gets the frame and protection the source page had, with its owner and file; the source loses exactly those pages; nothing else changes |
| `Frames.TryCloneExact` | src/context/memory.rs:69-106 | a clone succeeds iff the fresh frames suffice for the owned grants; it maps the same bytes with the same flags, owned memory in frames that were free and the rest in the source's frames, without files; the source is unchanged |
| `Frames.TryCloneBits` | src/context/memory.rs:69-106 | the clone has exactly the bytes without a file, with the same protection in grants and table, owned, from the allocator, where the source owns them |
| `Frames.SystemAfter` | src/context/memory.rs:69-106 | in every run over any number of spaces each owned frame is owned through one page of one space and not free, and handed out = given back + held |
| `Clones.CloneReadsSameIff` | src/context/memory.rs:86-97 | for every memory: what the source owns reads the same in the clone, and, copied pages not being in free frames, any other page does iff no copied page takes its frame |
| `Clones.ReadsByOrigin` | src/context/memory.rs:86-97 | without that proviso: a page reads the same for every memory iff the copies, followed back in order, lead to the source's frame |
| `Clones.CloneKeepsMemory` | src/context/memory.rs:86-97 | memory outside the fresh frames is unchanged |
| `Clones.StaleBorrowReadsWrong` | src/context/memory.rs:86-105 | a borrowed page whose owner has unmapped it, and that shows another page's contents in the clone |
| `Captures.LayoutOf` | src/scheme/user.rs:163-315 | head, whole pages and tail tile the buffer |
| `Captures.CaptureInner` | src/scheme/user.rs:163-315 | on success all pages sit in the region first fit chose, ends as kernel pages, middle as the client's frames; otherwise which error, or a panic iff a whole page is not mapped and all before it went well; how many pages stay mapped, and that the space is as before iff there are none; in every case new pages are writable iff the buffer is for writing, not executable, not owned and without a file |
| `Captures.FaultingCaptureLeaks` | src/scheme/user.rs:163-315 | a two-byte buffer for which the capture faults and a page stays mapped in the scheme |
| `Captures.SchemeReadsBuffer` | src/scheme/user.rs:163-315 | the scheme reads buffer byte i at base + i |
| `Captures.SchemeSeesNoMore` | src/scheme/user.rs:163-315 | the rest of the captured pages reads as zero |
| `Captures.WriteBufferShowsNothing` | src/scheme/user.rs:163-315 | the unaligned ends of a write buffer read as zero, whatever client and kernel pages held |
| `Captures.ReleaseInner` | src/scheme/user.rs:507-534 | release copies written ends back, up to a fault, which it reports, and unmaps exactly the captured pages in every case |
| `Captures.ReleaseRestores` | src/scheme/user.rs:507-534 | coverage, hole map and page table of everything else are as if the capture had not been there |
| `Captures.CaptureThenRelease` | src/scheme/user.rs:163-315 | capture followed by release restores the scheme's space |
| `Captures.ClientGetsWritesIff` | src/scheme/user.rs:507-534 | every byte of every memory the scheme leaves in a captured write buffer ends up in the client iff no byte of the two ends is also another byte of the buffer |
| `Captures.AliasedCaptureLoses` | src/scheme/user.rs:507-534 | a buffer over one frame mapped twice, captured with success, that loses a byte |
| `Contexts.UpdateRunnable` | src/context/switch.rs:18-84 | eligible iff idle, untraced, claimed by or free for this CPU, and runnable or due to wake by restore, signal or time; no claim changes |
| `Contexts.ApplySound` | src/context/switch.rs:41-64 | through every event, a pending restore always has saved state, and with a kernel stack one that fits |
| `Contexts.SavedUntilRestored` | src/context/switch.rs:182-192 | until it is restored, saved state is untouched and no second signal is delivered |
| `Contexts.SignalRoundTrip` | src/context/switch.rs:41-64 | from delivery through any events to the restore, registers, FX area and kernel stack come back exactly, up to the single-step flag, which a user handler may have changed |
| `Contexts.HandlerReturns` | src/syscall/process.rs:386-402 | from delivery through any events, then sigreturn, a switch and a look by its CPU, the context is runnable with registers, FX area and stack as before; nothing is assumed of the restore |
| `Contexts.ReturnExact` | src/syscall/process.rs:386-402 | sigreturn asks for the restore and blocks, or does nothing without saved state |
| `Contexts.DeliveryExact` | src/context/switch.rs:182-192 | delivery puts the state aside, takes the first pending signal and continues on the signal stack |
| `Contexts.VisitOnlyOwn` | src/context/switch.rs:18-39 | a CPU claims and updates only idle, untraced contexts that are its own or free for it, and leaves every other one as it is |
| `Contexts.DeadlineWakesOnce` | src/context/switch.rs:71-80 | a deadline that has passed wakes a blocked context and is gone |
| `Contexts.SleepsUntil` | src/context/context.rs:314-342 | a context that blocks can run again, without a signal, iff its deadline has passed or it is unblocked |
| `Contexts.OnlyContinueWakes` | src/syscall/process.rs:206-228 | a stopped context can run again iff the signal sent is SIGCONT; every signal is queued last |
| `Contexts.SignalsInOrder` | src/syscall/process.rs:206-228 | signals sent are delivered first in, first out, each once |
| `Scheduling.CyclicOrderSorted` | src/context/switch.rs:131-141 | contexts are looked at in order of cyclic ID distance |
| `Scheduling.ScanExact` | src/context/switch.rs:131-160 | the scan stops at the first eligible context, having updated exactly it and those before it |
| `Scheduling.SwitchValid` | src/context/switch.rs:163-180 | a switch keeps one running context per CPU, touches no other CPU's context and gives up no claim |
| `Scheduling.SwitchNearest` | src/context/switch.rs:131-160 | the context chosen is the eligible one at least cyclic distance; none is chosen iff none is eligible |
| `Scheduling.SwitchApproaches` | src/context/switch.rs:110-160 | every switch brings an eligible context strictly nearer or runs it |
| `Scheduling.SwitchIsEvents` | src/context/switch.rs:110-213 | a switch is a look and a delivery for the context switched to, a charge for the one left, and at most a look for every other |
| `Scheduling.ContextHistory` | src/context/switch.rs:110-213 | in every run of the system, a context becomes what its own events make of it, so the signal results hold of each |
| `Scheduling.SystemSignalsInOrder` | src/context/switch.rs:182-192 | in every run of the system, each context's signals are delivered first in, first out |
| `Scheduling.BootExact` | src/context/mod.rs:67-81 | a CPU comes up with one running context bound to it |
| `Scheduling.StateAfter` | src/context/mod.rs:67-81 | in every run of boots, creations, reaps, switches and events, each CPU runs its own current context |
| `Scheduling.OneRunningPerCpu` | src/context/switch.rs:163-180 | in every run, a context is running and claimed by a CPU iff it is current there |
| `Scheduling.ClaimedForLife` | src/context/switch.rs:29-39 | a claimed context stays with its CPU until it is reaped |
| `Scheduling.BoundedBypass` | src/context/switch.rs:110-160 | in any run, a context eligible at every switch on a CPU is passed over fewer times than its distance |
| `Scheduling.Kernel.Switch` | src/context/switch.rs:110-213 | the loop does what the specification says and reports whether it switched |
| `CpuTime.SwitchBalanced` | src/context/switch.rs:163-172 | a switch charges the leaving context exactly the time since it was switched to and no other context anything, and keeps every CPU's books balanced |
| `CpuTime.TimeConserved` | src/context/switch.rs:163-172 | over every run with a monotonic clock, the CPU time of a CPU's contexts, reaped ones included, adds up to the time of its last switch |
| `Conditions.WaitCondition.Notify` | src/sync/wait_condition.rs:20-27 | every waiter is removed and unblocked, and counted |
| `Conditions.WaitCondition.NotifySignal` | src/sync/wait_condition.rs:30-37 | every waiter is unblocked, none removed |
| `Conditions.WaitCondition.Register` | src/sync/wait_condition.rs:49-55 | the waiter is blocked and listed |
| `Conditions.WaitCondition.Withdraw` | src/sync/wait_condition.rs:62-84 | true iff the waiter was no longer listed; its entry is gone |
| `WaitProtocol.NextInv` | src/sync/wait_condition.rs:20-85 | every atomic action of any thread keeps the protocol's invariant |
| `WaitProtocol.NoLostWakeup` | src/sync/wait_queue.rs:34-44 | in every interleaving, on a queue or a map, a receiver blocked although there is something for it implies a sender that has stored but not finished notifying |
| `WaitProtocol.WaitedIffNotified` | src/sync/wait_condition.rs:62-84 | `wait` returns true iff a notify took the waiter off the list |
| `WaitProtocol.ResumeGoes` | src/sync/wait_queue.rs:34-44 | after `wait`, a queue receiver goes round again iff it was notified and otherwise returns nothing; a map receiver always goes round again |
| `WaitProtocol.NotifiedReceives` | src/sync/wait_queue.rs:34-44 | a notified receiver that next looks at a queue with something in it gets the first value, whatever others did in between |
| `WaitProtocol.LookExact` | src/sync/wait_map.rs:25-34 | a look takes the first value, or the one under the key, which is then gone, or finds nothing and keeps the lock |
| `WaitProtocol.PutExact` | src/sync/wait_map.rs:63-66 | a sender stores its value at the end, or under its key, and then owes a notify |
| `WaitProtocol.MapHoldsLastStored` | src/sync/wait_map.rs:25-34 | in every run a map holds under a key the last value stored there and not received since, read off the run |
| `WaitProtocol.BlockedUntilWoken` | src/sync/wait_condition.rs:49-55 | a receiver blocks before it is listed and is unblocked only by a notifier that has it in hand or by something meant for it |
| `WaitProtocol.FinishLeavesNoneBlocked` | src/sync/wait_condition.rs:20-27 | when a notify is finished, no waiting receiver is blocked |
| `WaitProtocol.QueueInOrder` | src/sync/wait_queue.rs:105-113 | values received, followed by those queued, are the values sent, in order |
| `WaitProtocol.StateAfter` | src/sync/wait_map.rs:25-34 | the invariant holds after every run, on a queue or on a map |
| `KernelMappers.NextValid` | src/arch/x86_64/rmm.rs:254-310 | every atomic access of any CPU keeps the lock's invariant |
| `KernelMappers.LockSafe` | src/arch/x86_64/rmm.rs:254-310 | live guards belong to one CPU, `get_mut` yields the mapper of at most one, the count is their number, and the lock is free once all are dropped, in any order |
| `KernelMappers.DerefExclusiveIff` | src/arch/x86_64/rmm.rs:291-302 | dereferencing yields the mapper of at most one guard iff the count is at most one |
| `KernelMappers.NestedLocksBothYield` | src/arch/x86_64/rmm.rs:298-302 | a lock taken twice whose guards both yield the mapper |
| `KernelMappers.OutermostWrites` | src/arch/x86_64/rmm.rs:254-291 | `get_mut` of a new guard yields the mapper iff no other guard is live |
| `UserCopy.CopyTwice` | src/syscall/usercopy.rs:123-135 | two adjacent copies to user memory are one copy and fault where it would |
| `Pipes.ReadExact` | src/scheme/pipe.rs:190-230 | what a reader gets is the head of the queue at the start of its buffer and nothing else changes; a fault consumes nothing; end of file, EAGAIN and waiting iff the queue is empty, by writer and flag |
| `Pipes.WriteExact` | src/scheme/pipe.rs:231-279 | every outcome of a write: how many bytes are taken with and without a fault and that they are appended in order; EFAULT iff the first chunk faults; EPIPE, EAGAIN and waiting iff the queue is full, by reader and flag |
| `Pipes.BrokenPipeIff` | src/scheme/pipe.rs:262-273 | without a reader, a write of something fails with EPIPE iff the queue is full |
| `Pipes.BrokenPipeMissed` | src/scheme/pipe.rs:262-273 | a write that succeeds after the reader has closed the pipe |
| `Pipes.Pipe.ReadPass` | src/scheme/pipe.rs:199-229 | one pass of the loop over both runs of the ring buffer is the one-copy read, wherever it wraps |
| `Pipes.Pipe.WritePass` | src/scheme/pipe.rs:239-278 | one pass in chunks takes what fits, or on a fault the whole chunks before it |
| `Pipes.HistoryAfter` | src/scheme/pipe.rs:190-279 | over every run, faults included, delivered bytes followed by the queue are the accepted bytes, and the queue stays within 65536 |
| `Pipes.EndsFollowOps` | src/scheme/pipe.rs:113-133 | in every run an end is open until it is closed, for good, and flags are as set last |
| `Pipes.EndOfFileIff` | src/scheme/pipe.rs:213-223 | in every run a read sees end of file iff the writer has closed the pipe and every byte ever accepted was delivered |
| `Externs.Memmove` | src/externs.rs:53-94 | for every length and overlap the destination gets the original source and nothing else changes |
| `Externs.MoveForward` | src/externs.rs:12-44 | the same for `memcpy` where the regions do not overlap, or overlap with the destination below |
| `Externs.BigEndianOrder` | src/externs.rs:141-148 | big-endian words compare as their bytes do |
| `Externs.Memcmp` | src/externs.rs:131-164 | zero iff equal; the sign is lexicographic iff the difference of the deciding words is at least -2^63 and less than 2^63 |
| `Externs.MemcmpMisorders` | src/externs.rs:144-147 | two words that are ordered wrongly |
| `Futexes.FutexList.Wake` | src/syscall/futex.rs:141-164 | removes and unblocks exactly min(val, matching) matching entries, returns that count, keeps all others as a multiset |
| `Futexes.WaitingSwapRemoved` | src/syscall/futex.rs:155-159 | swap-remove of a matching entry takes exactly one matching entry off |

## Left out

- Paging.Zeroed: what becomes of a frame that could not be mapped is decided in the `rmm` crate, which is not part of this model; here it is lost.
- Frames.TransferAccounted: only successful transfers of a leading part of a grant. One that finds no region, or whose table cannot grow, drops the grant it took: in the first case still marked as mapped, which the kernel asserts against. The caller that takes other parts takes by the wrong start.
- Frames.TryCloneExact: a clone fails for want of frames only, not of room in the new page table; and it fails without a trace, where the kernel drops the half-made space and asserts against any grant already in it, or loses the frames it had mapped.
- Captures.CaptureInner: two different spaces and a non-empty buffer on a 64-bit machine. Spaces and memory are values here, not objects, and page protection does not fault.
- Contexts.SignalRoundTrip: for contexts with a kernel stack, for the kernel panics on a restore without one; a debugger that edits the saved registers is left out. SIGCONT is taken to be 18.
- Scheduling.StateAfter: a context is reaped when it is seen not to be running, in one step with its removal; it has exited by then and cannot start to run again.
- Scheduling.BoundedBypass: for switches that do not end in the panic above.
- WaitProtocol.NoLostWakeup: threads are runnable or blocked; stopped and exited ones, and waits inside waits, are left out.
- KernelMappers.LockSafe: guards are dropped on the CPU that took them, and no interrupt takes the lock between the two atomic accesses of a lock or a drop.
- Pipes.HistoryAfter: closing an end notifies before it clears the flag, so no claim is made about wakeups on close; pipe handles and their lookup are left out.
- Widths: addresses, sizes, counts and times are unbounded integers, so overflow of their machine types is not modelled.
- Interleavings inside one address-space operation: the kernel runs them under the space's lock; notifications follow one munmap without other threads in between.
- Flag bits other than write, execute and present; TLB flushing; the `mapped` flag that guards dropping a grant; merging of adjacent grants.
- The `rmm` crate's page tables and allocator, user-copy assembly, register switching and the timer.
- FUTEX_REQUEUE, whose loops do not skip entries for other addresses, and the reading of the futex word.
- `waitpid` and the ordering of its keys; `receive_any` and copying queued values to user memory.
- Permission checks, namespaces, devices, ACPI, boot code, ELF loading and the remaining schemes.
