# A verified model of MOS

MOS is a small MIPS kernel with a user-level file server, pipes and a program loader. This project models the parts of
it whose correctness is a matter of invariants over whole runs, and proves those invariants.

| part | modules |
|---|---|
| physical pages, two-level page tables, TLB, ASIDs, memory syscalls | `Mmu`, `BitWords`, `PageTables`, `FlatMemory`, `Tlb`, `Kernel` |
| scheduler, blocking IPC with pages, the intrusive tail queue | `Lists`, `TailQueue`, `Scheduler`, `Discipline`, `Runs`, `Naming`, `Waiting`, `KernelEntry` |
| pipes between interleaved processes | `PipeFifo`, `PipeClosed` |
| file server: blocks, truncation, directories, paths; image writer | `FsBlocks`, `Paths`, `Directories`, `DirectoryBlocks`, `FileServer`, `FsFormat` |
| program loading, argument page, formatted printing | `ElfLoader`, `ArgStack`, `PrintNum`, `Printf` |

`dafny verify dfyconfig.toml` checks everything.

**Form.** Code that changes state in place is a class whose methods assign to its fields (`Kernel.Machine`,
`KernelEntry.Cpu`, `TailQueue.TailQ`, `FsBlocks.Server`, `FileServer.Server`, `FsFormat.Writer`, `ElfLoader.Loader`), or a
method on an array or a string (`PrintNum`, `ArgStack`, `Printf`). Each such method is specified by a function or predicate
on values, and the laws are lemmas about those. The two pipe protocols are state machines over single memory accesses,
because both ends run at once. `TailQueue` follows the `TAILQ` macros of include/queue.h field by field; its rows cite
their uses.

**Virtual memory.** `PageTables.Inv` ties three levels together: the words in the page-table pages, a flat map from
user page to page-table word, and the reference counts. `Tlb.Coherent` adds the cached translations, tagged by ASIDs that
are recycled. `Kernel.Machine.Run` states both for every run of every length. `FlatMemory` has the same operations on the
flat level alone; the kernel is proved to perform them, and the scheduler machine runs messages and memory calls on them.

**Scheduler.** The state of `Scheduler` holds the link fields of every environment, and only they decide who runs; the
sequence that they are meant to spell is recorded beside them. Stale links of environments that are not queued are part of
the state, down to the null links of those that never were.

**What turned out false of the code.** In each case the code is modelled as it is, a lemma exhibits the failure, and
another one or a contract clause says exactly when it happens.

- `env_sched_list` is not always the runnable environments. `Discipline.StepExact` says exactly which kernel entries keep
  it so. Starting a receiver lists it twice after the next send (`Discipline.RunnableReceiverListedTwice`); a removal with
  stale links drops somebody else, for instance when an environment parks itself, wakes another and yields
  (`Discipline.ParkSendYieldPanics`, `TailQueue.StaleRemoveForgets`). `Discipline.RuleSuffices` gives a rule for programs.
  The error path of the repository's own `spawn` breaks it and can stop the kernel (`Discipline.UnstartedChildCrashes`).
- `mkenvid` wraps around: a child in slot 0 gets the id 0, which names its parent, exactly at every 2^21st call
  (`Naming.ForkedChild`).
- `env_alloc` does not reset `env_ipc_recving`: a child in the slot of a destroyed receiver cannot be started
  (`Discipline.RecycledReceiver`); without such deaths every child can (`Runs.ChildCanStart`).
- A send whose page is refused returns an error although the message has been delivered (`Runs.RefusedButDelivered`,
  `Discipline.RefusedSend`), and the page of a message need not be there when the receiver runs (`Runs.ExactlyOnce`).
- The current environment can lose its place at the head of the list (`Waiting.CurStaysAtHead`, `Waiting.RejoinLosesHead`).
- `pipe_read` takes a pipe for empty while its unread bytes straddle a multiple of 2^32 (`PipeFifo.EmptyTestExact`). From
  there nothing is ever read again, every pipe can get there, and none ever gets past it (`PipeFifo.StuckForever`,
  `PipeFifo.PipeGetsStuck`, `PipeFifo.FewerThanWordRead`).
- `fork` and `spawn` share pages in address order, descriptor pages before pipe pages: until they are done, the test for a
  closed pipe can be wrong in both directions (`PipeClosed.VerdictExact`, `PipeClosed.FalseClosed`, `PipeClosed.FalseOpen`).
- `file_truncate` panics when it must clear an indirect slot it cannot reach (`FsBlocks.PanicBytes`,
  `FsBlocks.StretchedPanics`), loses the blocks of indirect slots past the old size (`FsBlocks.TruncationConserves`,
  `FsBlocks.OverhangLoses`), and clears nothing when the old size is above 2^32 - 4096 (`FsBlocks.TruncationCuts`,
  `FsBlocks.HugeKeepsBlock`).
- A free block that is still cached keeps its old contents when it becomes an index block (`FsBlocks.NewIndexExact`,
  `FsBlocks.StaleShares`).
- A create that gets no block for its directory changes what later opens answer (`FileServer.OpenAfterCreate`,
  `FileServer.FailedCreateSpoils`).
- `file_remove` does not clear the type of an entry and `file_create` does not set it: a file created in the entry of a
  removed directory is a directory (`FileServer.CreatedEntry`, `FileServer.RecycledDirectory`).
- `elf_load_seg` maps the first page twice, and wipes the file bytes in it, exactly for segments that are not
  `ElfLoader.Good`, and can leave their last page unmapped (`ElfLoader.Loader.LoadSegment`, `ElfLoader.UnalignedLost`,
  `ElfLoader.CrossingUnmapped`).
- The comment in `init_stack` says that the pointer array ends in a null pointer; the code stores USTACKTOP - 1
  (`ArgStack.InitStack`).

## Model

| member | source | states |
|---|---|---|
| Mmu.MkPteFields | kern/pmap.c:230-264 | a page-table word built from a page and permissions names that page, and of its low twelve bits exactly those of the permissions, the valid bit and the two cacheable bits are set |
| Mmu.IndexedAddress | kern/env.c:396-435 | the address env_free makes from two indices has those indices |
| Mmu.AddressIndices | kern/pmap.c:181-216 | the two indices of an address are those of its page: two addresses share them if and only if they are on one page |
| BitWords.SetBitEffect | fs/fs.c:214-225 | or-ing 1 << (n % 32) into word n / 32 turns on bit n of the bitmap and no other |
| BitWords.ClearBitEffect | kern/env.c:50-54 | and-ing with the complement turns off bit n and no other |
| PageTables.PageAllocStep | kern/pmap.c:131-149 | taking the head of the free list keeps the counting invariant, with the page held by the caller |
| PageTables.NewTableStep | kern/pmap.c:181-216 | a fresh zeroed page behind a directory entry keeps the invariant and adds no mapping |
| PageTables.MapStep | kern/pmap.c:230-264 | writing an entry and adding a reference keeps tables, flat map and counts in agreement |
| PageTables.RemapStep | kern/pmap.c:236-244 | changing the flags of an entry keeps every count |
| PageTables.UnmapStep | kern/pmap.c:311-327 | clearing an entry and dropping its reference keeps the invariant, also when the page becomes free |
| PageTables.NewDirStep | kern/env.c:192-218 | a held page becomes a directory with an empty user part |
| PageTables.DropTableStep | kern/env.c:412-421 | a table with no valid entry can be dropped |
| PageTables.DropDirStep | kern/env.c:425-426 | a directory without tables can be dropped |
| PageTables.FreePagesUnmapped | kern/pmap.c:131-327 | under the invariant no page on the free list is a directory, a table or mapped |
| PageTables.SingleReference | kern/pmap.c:299-306 | directories and tables have exactly one reference, so dropping it frees them |
| PageTables.DecrefPool | kern/pmap.c:299-306 | after a reference is dropped, the free list and the held pages are again exactly the unreferenced pages, each listed once |
| FlatMemory.FreeListPages | kern/pmap.c:131-162 | the free list holds exactly the pages that nothing refers to and nobody holds |
| PageTables.WalkRead | kern/pmap.c:272-292 | the two words that a walk reads are the answers of the flat map |
| PageTables.TableWrite | kern/pmap.c:230-264 | a write to one table word changes the flat map at one key: tables never alias |
| Tlb.FlushAndChange | kern/tlbex.c:13-15 | with its pair flushed, one mapping may change and the TLB stays coherent |
| Tlb.RefillStep | kern/tlbex.c:48-67 | caching the even and odd words shifted right by 6 keeps coherence |
| Tlb.NewOwner | kern/env.c:28-39 | a reused ASID inherits no translation from its previous owner |
| Tlb.DropOwner | kern/env.c:396-435 | an address space without pages can give up its ASID without flushing everything |
| Kernel.Machine.PageAlloc | kern/pmap.c:131-149 | the first free page, zeroed; fails only on an empty list |
| Kernel.Machine.PgdirWalk | kern/pmap.c:181-216 | the table of an address, made on demand; refuses only without a table and without a free page, changing nothing |
| Kernel.Machine.PageLookup | kern/pmap.c:272-292 | exactly what the flat map has at the address |
| Kernel.Machine.PageRemove | kern/pmap.c:311-327 | exactly one key leaves the flat map; counts and TLB stay right |
| Kernel.Machine.PageInsert | kern/pmap.c:230-264 | exactly one key of the flat map is set, with a table from the head of the free list if it was missing; fails if and only if no table exists and no page is free, with map and counts unchanged; the new word has exactly the permissions asked for |
| Kernel.Machine.Va2Pa | include/pmap.h:47-59 | the physical address that the flat map gives, all ones if and only if unmapped |
| Kernel.Machine.TlbInvalidate | kern/tlbex.c:13-15 | the pair of the address and ASID leaves the TLB, nothing else |
| Kernel.Machine.PassiveAlloc | kern/tlbex.c:18-43 | the faulting page gets the first free page, zeroed, with the write-enable bit set; panics if and only if the address is forbidden, with nothing changed, or a page or its table cannot be had |
| Kernel.Machine.TlbRefill | kern/tlbex.c:48-67 | the loop ends; it fails if and only if the address is unmapped and passive_alloc panics; the flat memory afterwards in every case; the cached half is the page-table word shifted right by 6 |
| Kernel.Machine.AsidAlloc | kern/env.c:28-39 | the smallest free ASID, refused only when all are in use |
| Kernel.Machine.AsidFree | kern/env.c:50-54 | that ASID and no other becomes free |
| Kernel.Machine.EnvSetupVm | kern/env.c:192-218 | a new directory, not shared with anyone, with no user mapping, the template between UTOP and UVPT and itself at UVPT; the template stays |
| Kernel.Machine.EnvAlloc | kern/env.c:239-288 | a fresh ASID and directory for the first free slot; refused if and only if there is no slot, no page or no ASID, which is when 256 environments are alive, and in the last case the directory page stays taken |
| Kernel.AsidsRunOut | kern/env.c:28-39 | all ASIDs are in use if and only if 256 environments are alive |
| Kernel.Machine.FreeTables | kern/env.c:403-424 | the nested loops remove every user mapping and table of the directory and nothing else |
| Kernel.Machine.EnvFree | kern/env.c:396-435 | every reference of the environment is given up, every other mapping stays, the directory page is free again and the next to be handed out, and no translation of its tables or directory at UVPT stays cached |
| Kernel.Machine.SysMemAlloc | kern/syscall_all.c:143-163 | a zeroed page appears at one address, writable if and only if asked for; out of memory if and only if a page or its table cannot be had, and the page of a refused insertion stays held by nobody |
| Kernel.Machine.SysMemMap | kern/syscall_all.c:179-208 | the destination maps the very page of the source with the permissions asked for; both errors with their exact conditions; errors change nothing |
| Kernel.Machine.ShareMapped | kern/syscall_all.c:442-450 | the same for the page of a message, which may go to address 0 |
| Kernel.Machine.SysMemUnmap | kern/syscall_all.c:220-237 | exactly one key leaves the flat map |
| Kernel.Machine.constructor | kern/pmap.c:93-116 | boot establishes the invariant; the free list holds exactly the unused pages, the last one first, and the boot counts are one for each page in use |
| Kernel.FlatStepBase | kern/pmap.c:299-306 | no kernel entry takes or gives a boot reference |
| Kernel.FlatStepEffect | kern/syscall_all.c:143-237 | what each entry of a run means to its caller: which one mapping changes, to which page and with which permissions, or that none does |
| Kernel.Machine.Step | kern/syscall_all.c:143-237 | every kernel entry, the page of a message included, keeps the invariant, changes the flat memory exactly as specified for it, and panics exactly on a fault that cannot be served |
| Kernel.Machine.Run | kern/env.c:396-435 | over every run the boot counts stay, each count is the boot count plus the number of references, no free page is referenced, every valid cached half of a live environment is its own page-table word shifted right by 6, and the flat memory goes through the specified steps |
| TailQueue.InsertHeadRepr | kern/env.c:384-388 | the link writes prepend to the sequence the links spell |
| TailQueue.InsertTailRepr | kern/syscall_all.c:434-437 | the link writes append to it |
| TailQueue.RemoveRepr | kern/sched.c:38-44 | removing a queued element deletes it alone |
| TailQueue.StaleRemoveExact | kern/env.c:431-434 | removing an element that is not queued writes through no null pointer and keeps the queue if and only if its stale links are harmless |
| TailQueue.RemoveTwice | kern/syscall_all.c:382-386 | removing any element twice in a row is the same as removing it once |
| TailQueue.SafeRemove | kern/sched.c:38-44 | removing a queued or harmless element deletes it if present, and can be repeated |
| TailQueue.StaleRemoveForgets | kern/env.c:431-434 | a run in which freeing a blocked environment takes another one off the list |
| TailQueue.ParkThenWakeForgets | kern/sched.c:38-44 | park, wake another, schedule: the queue forgets the woken one |
| TailQueue.TailQ.Append | kern/sched.c:41-43 | the in-place form of appending |
| TailQueue.TailQ.Unlink | kern/syscall_all.c:309-311 | the in-place form of removing |
| Scheduler.StepKeepsInv | kern/env.c:14-15 | every allowed kernel entry keeps: the links spell the list; on the list, once, if and only if runnable; a receiver is never on it; live environments have their own directories |
| Scheduler.SchedulePicks | kern/sched.c:17-55 | in terms of the list: schedule runs the head of the requeued list, and panics if and only if that is empty; how long it then runs is `Waiting.TurnLength` |
| Scheduler.ScheduleKeepsInv | kern/sched.c:17-55 | schedule keeps the invariant when the current environment can be taken off the list |
| Scheduler.SendKeepsInv | kern/syscall_all.c:405-452 | a send keeps it, whatever happens to its page |
| Scheduler.SetStatusKeepsInv | kern/syscall_all.c:290-317 | a status change of an environment that is not receiving keeps it |
| Scheduler.FreeEnvKeepsInv | kern/env.c:396-435 | freeing an environment that is queued, or whose stale links are harmless, keeps it |
| Scheduler.MemoryKeepsInv | kern/syscall_all.c:143-237 | memory calls and page faults change the memory alone |
| Scheduler.BootInv | kern/env.c:152-187 | the state after env_init satisfies the invariant, with the slots free in order |
| Scheduler.CreateKeepsInv | kern/env.c:371-391 | so does every state that env_create makes |
| Discipline.StepExact | kern/env.c:14-15 | a step that does not stop the kernel keeps the invariant if and only if it is allowed: it makes no receiver runnable, and takes nothing off the list that is neither queued nor harmless |
| Discipline.StopsExact | kern/sched.c:46-48 | an allowed step stops the kernel if and only if nobody is left to run, or a page fault cannot be served |
| Discipline.DisciplineWorks | kern/syscall_all.c:290-317 | a rule that callers can follow (start no receiver, destroy only runnable children, move nobody between parking and giving up the CPU) makes every step allowed |
| Discipline.RuleSuffices | kern/sched.c:17-55 | so every run that follows the rule is allowed from beginning to end |
| Discipline.RunnableReceiverListedTwice | kern/syscall_all.c:290-317 | a run that lists a receiver twice |
| Discipline.ParkSendYieldPanics | kern/sched.c:38-48 | park, send, yield: the kernel panics although the receiver is runnable |
| Discipline.RecycledReceiver | kern/env.c:239-288 | a receiver is destroyed and its slot reused: the fresh child, which never called receive, cannot be started |
| Discipline.UnstartedChildCrashes | user/lib/spawn.c:248-252 | from every state, a child forked into a slot that was never queued and destroyed before it is started stops the kernel: its removal writes through a null link |
| Discipline.RefusedSend | kern/syscall_all.c:439-449 | a send with a missing page that reports an error and is delivered |
| KernelEntry.Cpu.constructor | kern/env.c:152-187 | env_init |
| KernelEntry.Cpu.Reschedule | kern/sched.c:17-55 | the assignments compute the schedule function, deciding by the links alone; refused exactly when the kernel stops; `Waiting.TurnLength` says what that means for priorities |
| KernelEntry.Cpu.IpcRecv | kern/syscall_all.c:364-387 | the assignments compute receive followed by schedule; the invariant stays if the caller can be taken off the list |
| KernelEntry.Cpu.IpcTrySend | kern/syscall_all.c:405-452 | the assignments compute the send function, whose codes `Runs.SendCodes` gives, and keep the invariant |
| KernelEntry.Cpu.SetEnvStatus | kern/syscall_all.c:290-317 | the assignments compute the status change, whose codes `Naming.StatusCodes` gives; the invariant stays unless a receiver is made runnable |
| KernelEntry.Cpu.EnvDestroy | kern/env.c:440-450 | freeing, and scheduling when the current environment destroyed itself |
| Runs.StepMailbox | kern/syscall_all.c:364-452 | one step changes a mailbox only by delivery to it, by a receive of its owner or by its death |
| Runs.SlotConservation | kern/syscall_all.c:364-452 | over every run, slot by slot, deliveries plus pending receives equal receives plus the initially pending one |
| Runs.DeliveryConservation | kern/syscall_all.c:364-452 | the same for every env_id, over every run that destroys no receiver |
| Runs.LiveReceiversExact | kern/env.c:396-435 | only living environments count as receiving, exactly as long as no receiver is destroyed |
| Runs.ChildCanStart | kern/syscall_all.c:253-317 | until then, a forked child can be started at any time at which it has not itself called receive |
| Runs.StepChange | kern/syscall_all.c:143-237 | every step changes every user mapping exactly as its arguments say: sends, memory calls, faults and deaths, and nothing else |
| Runs.RunChange | kern/syscall_all.c:143-237 | over every run a mapping is what the last change made it |
| Runs.VeryPage | kern/syscall_all.c:439-449 | a message brings a page if and only if it names one, the sender has it and a table can be had; what arrives is the very page of the sender with the permissions of the call, and the receiver is told these and the valid bit |
| Runs.QuietMailbox | kern/syscall_all.c:364-452 | without a receive there is no delivery and the mailbox stays |
| Runs.ExactlyOnce | kern/syscall_all.c:364-452 | a blocked receiver that runs again got one message and finds its value, sender and permissions; its page is at dstva if and only if nothing changed there since, or the last change put the same page back |
| Runs.RefusedButDelivered | kern/syscall_all.c:439-449 | a send reports an error about its page exactly when the sender has none, or a table is missing and no page is free; the message has arrived all the same |
| Runs.SendCodes | kern/syscall_all.c:405-452 | every error code of a send with its exact condition on the id, the status and receiving flag of the target, and srcva; success, and errors about the page, only for sends that are delivered; every other send changes nothing |
| Runs.NoLostMessage | user/lib/ipc.c:12-18 | over every run the sends to an environment that were answered with success, together with those refused for their page alone, are exactly the deliveries to it |
| Naming.IdsStep | kern/env.c:89-92 | the low bits of the id of a living environment are its slot, in every state, so no two of them share an id |
| Naming.ForkedChild | kern/syscall_all.c:253-280 | exofork fails exactly without a slot, a page or an ASID; otherwise the id it returns is that of a new child, not runnable, with its parent's priority, and envid2env finds the child through it, or the parent itself if and only if the id has wrapped around to 0 |
| Naming.TargetExact | kern/env.c:108-139 | envid2env finds the caller for 0, and otherwise a living environment with that id, which with checkperm is the caller or its child |
| Naming.StatusCodes | kern/syscall_all.c:290-317 | both error codes of a status change with their exact conditions; on success that status alone changes, on an error nothing does |
| Naming.OthersUntouched | kern/env.c:125-130 | changing a status, destroying, mapping and unmapping leave the status, the mailbox, the place among the runnable and every mapping of any environment that is neither the caller nor its child |
| Waiting.CurStaysAtHead | kern/sched.c:38-54 | a runnable current environment stays at the head if and only if it does not park and rejoin behind others |
| Waiting.RejoinLosesHead | kern/syscall_all.c:290-317 | a run in which it does |
| Waiting.StepShortens | kern/sched.c:17-55 | each step picks a waiting environment or does not lengthen its wait; each scheduler call shortens it |
| Waiting.BoundedWaiting | kern/sched.c:17-55 | an environment that stays runnable waits for at most the remaining slice plus max(1, env_pri) for each of those ahead, in scheduler calls |
| Waiting.TurnLength | kern/sched.c:38-54 | an environment that schedule switches to keeps the CPU, while it stays runnable and nobody gives the CPU up, for exactly env_pri - 1 further scheduler calls, and the next one sends it to the tail; with a priority of zero, or negative as an int, the very next call does |
| Waiting.HoldsCpu | kern/sched.c:38-54 | each tick takes one off the slice counter, and the current environment stays until it is used up |
| Waiting.StepRuns | kern/env.c:478-491 | env_runs counts exactly the scheduler calls that ran the environment |
| Waiting.CreatedRuns | kern/env.c:371-391 | an environment created during boot has the priority asked for and is the first to run |
| PipeFifo.StepKeepsInv | user/lib/pipe.c:133-205 | every store, load and advance of either side keeps the ring invariant |
| PipeFifo.FillLevel | user/lib/pipe.c:177-205 | the writer's wrapped 32-bit difference is the true fill level |
| PipeFifo.WrapKeepsCell | user/lib/pipe.c:20-26 | a wrapped position selects the same buffer cell as the full count |
| PipeFifo.Fifo | user/lib/pipe.c:133-205 | under every interleaving the level is between 0 and 32 and the bytes read are a prefix of those written |
| PipeFifo.EmptyTestExact | user/lib/pipe.c:149-156 | the reader's test says empty if and only if the pipe is empty or the unread bytes straddle a multiple of 2^32 |
| PipeFifo.TestsExact | user/lib/pipe.c:149-205 | the writer goes on if and only if fewer than 32 bytes are unread, the reader if and only if one is and they do not straddle a multiple of 2^32 |
| PipeFifo.FillThenDrain | user/lib/pipe.c:133-205 | a fresh pipe takes any 32 bytes before one is read, and no more, and gives them back in order |
| PipeFifo.PipeGetsStuck | user/lib/pipe.c:149-156 | after 2^32 - 1 bytes read and one more written that state is reached, from every fresh pipe |
| PipeFifo.StuckForever | user/lib/pipe.c:149-156 | from there no run ever reads another byte |
| PipeFifo.FewerThanWordRead | user/lib/pipe.c:149-156 | no run of any pipe ever reads 2^32 bytes |
| PipeClosed.StepKeepsInv | user/lib/pipe.c:95-117 | a check whose environment has not been switched out has read the present counts, under every interleaving of dup, close, exit, fork and spawn |
| PipeClosed.HalfSharedStep | user/lib/fd.c:102-177 | dup, close and exit leave no slot with its descriptor page and without its pipe page |
| PipeClosed.PipeRefsCover | user/lib/pageref.c:14-30 | without fork and spawn the pipe page has in every reachable state at least as many references as both descriptor pages together |
| PipeClosed.VerdictExact | user/lib/pipe.c:95-117 | over every run, when the retry loop ends: the answer is true if and only if no slot of the own end is half shared, or there are foreign mappings and not just as many; as many give a false closed, none a false open |
| PipeClosed.NoFalseAnswer | user/lib/pipe.c:95-117 | without fork and spawn closed is reported if and only if every mapping of the pipe belongs to the own end |
| PipeClosed.DupOpens | user/lib/fd.c:136-177 | dup opens the new descriptor with both its pages and changes nothing else |
| PipeClosed.CloseCloses | user/lib/pipe.c:247-253 | close takes both pages of a descriptor away and nothing else |
| PipeClosed.ExitAndShare | user/lib/spawn.c:223-240 | exit takes all descriptors of the environment away; fork and spawn give the child both pages |
| PipeClosed.TestAnswers | user/lib/pipe.c:95-117 | without interruption the test ends with an answer; with no slot half shared it is closed if and only if every mapping belongs to an open descriptor of the own end |
| PipeClosed.LastCloseNoticed | user/lib/pipe.c:95-117 | after the last descriptor of the other end is closed, the next test says closed |
| PipeClosed.FalseClosed | user/lib/spawn.c:223-240 | a run with a half-finished fork in which closed is reported while the other end is open |
| PipeClosed.FalseOpen | user/lib/spawn.c:223-240 | one in which open is reported though nobody has the other end |
| FsBlocks.OwnPut | fs/fs.c:446-472 | a free block put into an empty slot keeps ownership |
| FsBlocks.OwnNewIndex | fs/fs.c:395-432 | so does a new index block that reads as zero |
| FsBlocks.DirtyIndexShares | fs/fs.c:149-162 | an index block with a stale word that names a used block makes two slots share it |
| FsBlocks.NewIndexExact | fs/fs.c:395-432 | a free block becomes an index block and keeps ownership if and only if each of its words is zero or names a different used block that no slot holds |
| FsBlocks.OwnClear | fs/fs.c:476-490 | emptying a slot and freeing its block keeps ownership |
| FsBlocks.OwnDropIndex | fs/fs.c:760-768 | dropping the index block keeps ownership and empties exactly the slots in it |
| FsBlocks.PutFrame | fs/fs.c:395-432 | writing a slot changes no other slot of any file: index blocks are not shared |
| FsBlocks.MapBlockKeeps | fs/fs.c:149-162 | mapping a free block changes no slot |
| FsBlocks.FreeBlockEffect | fs/fs.c:214-225 | exactly the named block, unless it is 0 or past the disk, becomes free |
| FsBlocks.Server.AllocBlockNum | fs/fs.c:234-249 | the first free block past the bitmap, none if and only if all are used |
| FsBlocks.Server.AllocBlock | fs/fs.c:254-272 | the first free block; both errors with their exact conditions; a failed mapping gives the block back |
| FsBlocks.Server.FileBlockWalk | fs/fs.c:395-432 | at most the index block is added, the first free block if it is new; the answer as an exact function of the state before |
| FsBlocks.Server.FileMapBlock | fs/fs.c:446-472 | the answer as an exact function of the state before; an existing block is returned, a missing one is the first free block, or the next if the first becomes the index block; all other slots of all files stay; exactly these blocks stop being free; ownership stays |
| FsBlocks.MapCodes | fs/fs.c:446-472 | its error codes in terms of the file and the free blocks |
| FsBlocks.Server.FileClearBlock | fs/fs.c:476-490 | one slot is emptied and exactly its block becomes free, or nothing changes |
| FsBlocks.Server.FileTruncate | fs/fs.c:750-774 | slots below the new count stay, the rest up to the old count are emptied, the free set grows by exactly their blocks and the index block; in bytes: every block with a byte below the new size stays, every one between the new and the old size is gone and free; panics if and only if an index slot cannot be reached |
| FsBlocks.Server.FileSetSize | fs/fs.c:778-791 | growing changes the size and nothing else on the disk, shrinking truncates |
| FsBlocks.TruncationCuts | fs/fs.c:750-774 | truncation in terms of bytes, for all sizes whose rounding does not wrap around 32 bits; for an old size that does, no direct block goes |
| FsBlocks.ByteStays | fs/fs.c:753-754 | every byte below the new size is in the block it was in |
| FsBlocks.PanicBytes | fs/fs.c:750-774 | when truncation panics, in terms of the old and new size in bytes |
| FsBlocks.HugeKeepsBlock | fs/fs.c:753-754 | a file of 2^32 - 1 bytes whose truncation to nothing frees nothing |
| FsBlocks.Server.Run | fs/fs.c:395-791 | any mix of allocations, resizings and client writes keeps ownership until truncation panics or a new index block would be a cached block with old contents; every operation before that did what its own contract says |
| FsBlocks.TruncationConserves | fs/fs.c:750-774 | a block that was held is held or free afterwards, except exactly those of indirect slots past the old size |
| FsBlocks.TruncationEmpties | fs/fs.c:750-774 | with nothing past the old size, every slot from the new count on is empty and every slot below is as before |
| FsBlocks.StretchedPanics | fs/fs.c:750-791 | a file stretched to eleven blocks and truncated: the panic |
| FsBlocks.OverhangLoses | fs/fs.c:750-774 | a file with a block past its size: truncation loses the block |
| FsBlocks.StaleShares | fs/fs.c:149-162 | a disk on which a new index block makes two files share a block |
| Paths.SkipSlash | fs/fs.c:614-619 | the scan stops at the first character that is not a slash and skips no component |
| Paths.SlashSplits | fs/fs.c:630-697 | the components of a path with a slash in it are those of the part before and those of the part after |
| Paths.JoinComponents | fs/fs.c:630-697 | every list of proper names is the component list of some path |
| Directories.WalkSlashes | fs/fs.c:614-697 | leading, trailing and repeated slashes do not change a walk |
| Directories.OnePath | fs/fs.c:630-697 | an entry is reached by one list of components only |
| Directories.EditWalk | fs/fs.c:630-697 | changing one entry and one name leaves every walk that does not run through that name |
| DirectoryBlocks.OwnedEntries | fs/fs.c:539-571 | in every tree that the disk holds no entry sits in two directories, because no block sits in two slots |
| DirectoryBlocks.GrowOnDisk | fs/fs.c:600-607 | a directory that gets another block is on the disk again, with the entries of that block |
| DirectoryBlocks.RemoveOnDisk | fs/fs.c:847-869 | so is a tree from which an entry and its blocks are removed |
| DirectoryBlocks.MappedBlocks | fs/fs.c:446-472 | file_map_block leaves the blocks of all other files in place |
| Directories.FindFirst | fs/fs.c:547-568 | a lookup finds the first entry that has the name |
| FileServer.Server.Search | fs/fs.c:547-568 | the nested loops find the first entry with the name, none if and only if there is none |
| FileServer.Server.DirLookup | fs/fs.c:539-571 | the entry if an existing block has it; otherwise a block that the size counts and that does not exist is asked for, and its error returned |
| FileServer.Server.DirAllocFile | fs/fs.c:576-610 | the first unused entry, else the first entry of a new block; without the block the directory counts it all the same |
| FileServer.Server.WalkPath | fs/fs.c:630-697 | the character scan computes the fold of lookups over the components, with file, directory, missing last name and every error code |
| FileServer.OpenCodes | fs/fs.c:630-697 | the answer in terms of components and entries: found; a component of 128 characters or more; an entry on the way that is no directory; an absent component, earlier or last; a directory block that cannot be had |
| FileServer.WalkStops | fs/fs.c:630-697 | one of these is the case for every path |
| FileServer.CreateLaws | fs/fs.c:715-735 | names stay unique, the created path finds the entry that was named, every path not running through it walks as before |
| FileServer.CreateCodes | fs/fs.c:715-735 | success exactly when the last name alone is missing and the directory has an unused entry or can get a block; every other code |
| FileServer.CreatedEntry | fs/fs.c:715-735 | the created entry has the last name of the path and no blocks, and is a directory if and only if the reused entry was one |
| FileServer.RecycledDirectory | fs/fs.c:847-869 | a directory is removed and a file created: the file is a directory |
| FileServer.OpenAfterCreate | fs/fs.c:600-605 | what open answers after a create differs from before exactly for names looked for in vain in the same directory while no block can be had, if the create could not get a block either or got the missing one |
| FileServer.FailedCreateSpoils | fs/fs.c:600-605 | on a full disk a failed create turns later not found errors into disk errors |
| FileServer.RemoveLaws | fs/fs.c:847-869 | unless truncation panics, the removed path is missing from its directory, paths below it are not found, every other path walks as before |
| FileServer.CreateThenRemove | fs/fs.c:715-869 | creating a path and removing it leaves every walk as it was |
| FileServer.RemoveRoot | fs/fs.c:847-869 | removing the root empties it; it can still be opened |
| FileServer.MkdirLaws | fs/serv.c:164-190 | mkdir makes the path find a directory, fails exactly as create does on a missing path, and leaves every path that found a file and every path not running through it |
| FileServer.FilesStay | fs/fs.c:705-869 | over every run of opens, creates, mkdirs and removes a file keeps its entry and directory until it or a directory above it is removed |
| FileServer.Server.FileCreate | fs/fs.c:715-735 | the assignments compute create; on success the path opens the returned entry |
| FileServer.Server.FileRemove | fs/fs.c:847-869 | the assignments compute remove and keep the directory invariant |
| FsFormat.FlushedBits | tools/fsformat.c:111-160 | after init_disk and flush_bitmap the bits set are exactly those from nextbno to the end of the disk |
| FsFormat.Writer.constructor | tools/fsformat.c:111-144 | the initial image is empty and satisfies the server's ownership invariant |
| FsFormat.Writer.SaveBlockLink | tools/fsformat.c:187-199 | the block is found at its index by the server's rule, an index block is made on demand, nothing else changes |
| FsFormat.Writer.AddBlock | tools/fsformat.c:147-199 | handing out and linking a block keeps every handed-out block linked once |
| FsFormat.Writer.WriteFile | tools/fsformat.c:265-295 | each file block, found by the server's rule, holds what was written; other files keep blocks and contents |
| FsFormat.Writer.MakeLinkBlock | tools/fsformat.c:203-208 | a directory gains a block of unused entries that reads as zero, nothing else changes |
| FsFormat.Writer.FlushBitmap | tools/fsformat.c:153-160 | the server finds its ownership invariant, each used block linked once, and free exactly nextbno up to NBLOCK |
| ElfLoader.Loader.MapPage | kern/env.c:307-329 | a zero page with the bytes copied in, with its permission, replaces what was mapped; an error changes nothing |
| ElfLoader.Loader.LoadSegment | lib/elfloader.c:25-60 | the exact memory afterwards for either kind of segment; the image is right if and only if the segment is good, or it has no data and its tail reads as zero already; each page is mapped once if and only if the segment is good; each is valid, writable if and only if the segment is, and nothing else; mapper errors are passed on |
| ElfLoader.FilledLoads | lib/elfloader.c:25-60 | pages filled one by one make up the image of the System V gABI, chapter 5, "Program Header" |
| ElfLoader.LoadedStays | kern/env.c:337-361 | loading one segment leaves the image of a segment on other pages alone |
| ElfLoader.WipedLoads | lib/elfloader.c:41-58 | what is left of a segment that is not good |
| ElfLoader.Loader.LoadProgram | kern/env.c:337-361 | every segment is loaded in turn as `LoadSegment` says; good segments that share no page are all loaded at the end |
| ElfLoader.UnalignedLost | lib/elfloader.c:41-58 | a two-byte segment whose data byte is lost |
| ElfLoader.CrossingUnmapped | lib/elfloader.c:52-58 | a segment without data whose second page is never mapped |
| ArgStack.StringFound | user/lib/spawn.c:36-49 | the i'th string is read where the strings before it end |
| ArgStack.LayoutDelivers | user/lib/spawn.c:8-77 | strings, pointers and header words together give the child argc and every argument |
| ArgStack.DeliversOne | user/lib/entry.S:5-6 | what the child reads through sp determines the argument list |
| ArgStack.InitStack | user/lib/spawn.c:8-77 | refused if and only if the strings rounded up to words, the pointers with one more word, and two header words take more than 4096 bytes; otherwise reading argc and argv through child addresses gives back exactly the strings, the areas are disjoint, and the word after the pointers is USTACKTOP - 1 |
| PrintNum.RoundTrip | lib/print.c:204-277 | for every value, base, width, sign, adjustment and padding the text reads back as the number and has length max(width, digits plus sign) |
| PrintNum.Placement | lib/print.c:232-274 | spaces stand on the right of a left-adjusted number and on the left of any other, zero padding has none, only spaces come before the sign, and letters have the case asked for |
| PrintNum.DigitsBound | lib/print.c:216-231 | a value of up to 64 bits has at most 64 digits, so the buffer is large enough |
| PrintNum.PutDigits | lib/print.c:221-231 | the digit loop leaves the numeral reversed |
| PrintNum.Reverse | lib/print.c:258-274 | the swap loop reverses its part of the buffer and leaves the rest |
| PrintNum.PrintNumber | lib/print.c:204-277 | the buffer algorithm produces the specified layout of sign, zeros, spaces and digits, in bounds |
| Printf.DirectiveReads | lib/print.c:38-64 | flags, width and length modifier of a directive are read as they were written |
| Printf.ConversionReads | lib/print.c:66-137 | the text of each numeric conversion, read in base 2, 8, 10 or 16 as C has it, is the argument, signed for %d and unsigned for the others; capitals for %X alone; padding as the flags say |
| Printf.OtherConversions | lib/print.c:139-153 | strings and characters as fields; any other character is printed as it is and takes no argument |
| Printf.FormatCut | lib/print.c:144-147 | a percent sign at the very end prints nothing |
| Printf.FormatPlain | lib/print.c:23-36 | text without a percent sign is printed as it is, whatever follows |
| Printf.FormatPieces | lib/print.c:8-157 | a format written from text and directives prints them one after the other, each taking its own arguments |
| Printf.ScanDirective | lib/print.c:38-64 | the character scan computes the reading of a directive |
| Printf.PrintField | lib/print.c:160-202 | strings and characters, padded with spaces on the chosen side to the width |
| Printf.PrintOne | lib/print.c:66-153 | the conversion switch: base, sign, case and arguments of each conversion character |
| Printf.VPrintFmt | lib/print.c:8-157 | the loop ends and prints what the format means |
| PrintNum.PrintsSigned | lib/print.c:77-97 | %d prints every 32-bit integer, the smallest included, so that it reads back |

## Left out

- Directory entries at or above UTOP: the shared template, `map_segment` and the UVPT self map are not reference counted by the kernel and not counted here.
- Copy-on-write, `do_tlb_mod`, trap entry, system-call dispatch, devices, console, job table, shell and commands; of `fork` and `spawn` only the order in which they share pages.
- Block-cache write-back (`dirty_block`, `file_flush`, `fs_sync`, `unmap_block`), and of the request server all but mkdir.
- The TLB is a map from (page pair, ASID) to two words, with the random replacement of `tlbwr` as a parameter; its size is not modelled.
- What page_alloc hands out in the scheduler machine, and whether a block can be had in the directory model, are parameters of each event, so every choice is covered.
- `file_open`, `fd2data`, `fd2num`, `page2pa` and similar one-line members: they would add nothing.
- `pipe_read` and `pipe_write` as loops over a user buffer: they are steps of a state machine, so the return count of one call is not modelled.
- Kernel.Machine.PageInsert: requires a page that the caller holds or that some environment maps, permissions below 4096 without the global bit, and fewer than 65535 references to the page unless it is already there, because `pp_ref` is 16 bits wide and the kernel checks none of this.
- Kernel.Machine.SysMemMap: requires, for the same reason, that the source page can take one more reference.
- Kernel.Machine.ShareMapped: requires the same.
- Kernel.Machine.constructor: the `map_segment` calls of `env_init` fill the template above UTOP and are not modelled; the free list is smaller by their tables.
- Kernel.Machine.Step: entries that break the duties above, and faults at or above UTOP, are skipped; an address-space switch changes none of the modelled state.
- Scheduler.StepKeepsInv: is about allowed entries; `Discipline.StepExact` shows that no other entry keeps the invariant.
- Runs.DeliveryConservation: is about runs that destroy no receiver; `Discipline.RecycledReceiver` shows what happens otherwise.
- Runs.VeryPage: the page claim is for permissions below 4096 without the global bit, which the system call does not check.
- Runs.RefusedButDelivered: assumes that page_alloc hands out a page whenever one is free.
- Scheduler.MemoryKeepsInv: the scheduler machine counts references without the 16-bit limit of `pp_ref`, and has no pages mapped by `load_icode`; memory calls map pages in it.
- PipeFifo.Fifo: one reader and one writer.
- PipeClosed.VerdictExact: `env_runs` does not wrap around between two reads; the child of a fork runs only steps that the model has.
- FsBlocks.Server.FileMapBlock: when it gives the file an index block, it requires that the first free block is not in the cache or reads as zero there; `FsBlocks.NewIndexExact` shows what happens otherwise.
- FsBlocks.Server.FileBlockWalk: requires the same.
- FileServer.Server.DirLookup: errors of reading a block that exists, and the `f_dir` back pointer, are not modelled.
- FileServer.Server.WalkPath: inherits that from `dir_lookup`.
- FileServer.Server.DirAllocFile: a new directory block reads as zero; file data, and the limit of 1024 blocks per directory, are not modelled.
- FileServer.MkdirLaws: mkdir of an existing regular file with data turns its data into entries, which the model does not have.
- FsFormat.Writer.AddBlock: requires the blocks to fit on the disk, since the writer does not check.
- FsFormat.Writer.WriteFile: takes an unused entry as given; the search of `create_file`, names and types are not modelled in the image writer.
- ElfLoader.Loader.LoadSegment: the segment does not wrap around 32 bits and its file bytes lie inside the binary, which the loader does not check.
- ArgStack.InitStack: the two syscalls that map the finished page are not modelled, and the total length is an unbounded integer.
- Printf.VPrintFmt: the width is an unbounded number; a missing argument, or one of another kind than the conversion reads, is undefined in C and a separate outcome here.
- PrintNum.PrintNumber: a negative width, which only an overflow in the format parser could give, is not modelled.
