# Nachos kernel: a model and its proofs

This project models the parts of Nachos 3.4, with the kernel additions found in this repository,
where correctness is hard to see from any one function, and proves what the system promises there.

- **The on-disk file system** (the real one, compiled when `FILESYS_STUB` is off). A bit-packed
  free map, one-sector file headers and a ten-entry directory, the map and the directory being
  files themselves. Classes follow the source statement by statement (`BitMapModel.BitMap`,
  `FileHeaders.FileHeader`, `OpenFiles.OpenFile`, `Directories.Directory`,
  `FileSystems.FileSystem`); `DiskState` says what a disk image means, `DiskSteps` what a call does
  to it, and `DiskRuns` what holds over whole runs: the ownership invariant, refinement of a map
  from nine-character names to contents, undo, and conservation of sectors.
- **The thread kernel as a step system.** `Kernel` gives each interrupts-off section of the
  scheduler, threads, semaphores and locks as one step, cut at context switches; while `Sleep`
  idles no thread runs, and a handler may ready the sleeping thread itself. `KernelSafety` proves
  one inductive invariant over all steps, `KernelRuns` and `KernelLaws` the properties of whole
  runs and what each step does to queues, locks and calls, and
  `KernelObject` proves methods that update the kernel's variables in place, the ready list being
  the linked list, equal to the steps. On top of semaphores and locks sit three protocols, each for arbitrary interleavings: `SynchDiskProtocol`,
  `ConsoleProtocol` and `JoinExit`; `ProcessTable` holds the slots.
- **The interrupt simulation and its list**: `LinkedList` is the linked structure with first and
  last pointers, `InterruptSim` the simulation over whole runs, `InterruptDevice` its object on
  such a list.
- **Machine arithmetic and memory**: `Multiplier`, `DiskTiming`, `Memory` and `Machines`.
- **Decimal conversion** in the ReadInt and PrintInt system calls: `Decimal`.

Words and bytes are integers in range; two's complement, wrap-around and C's truncating division
are written out where the source depends on them (`Bits`, `Multiplier`, `Decimal`, `Memory`).

Where the code does not do what its comments or callers expect, the model follows the code, a
lemma gives an input, and another says exactly when the expectation holds:

- "a finished thread is destroyed" fails when the thread dispatched next is a new one and finishes
  first (`KernelRuns.LeakExample`, `LeaksExactlyWhen`, `FinishedIffReaped`);
- Join and Exit complete if and only if the join is registered before the child looks and the exit
  code is 0 (`JoinExit.CompletesIff`, `NonzeroCodeExample`, `LateJoinExample`);
- ReadInt undoes PrintInt for every int but the least (`Decimal.RoundTrip`), and refuses some
  in-range numerals (`Decimal.RefusedNumerals`, `LeadingZerosExample`, `LimitPointExample`);
- the loop that fires due interrupts leaves something due if and only if it starts in idle mode
  with a due timer last in the list and no handler before it schedules anything
  (`InterruptSim.LeavesDueExactlyWhen`, `TimerLeftExample`).

`Kernel.Inv` is assumed nowhere: boot satisfies it and every step keeps it, which is why run
theorems may range over the type `KernelSafety.Good`.

Verify with `dafny verify dfyconfig.toml`.

## Model

| member | source | states |
|---|---|---|
| BitMapModel.MarkedMember | nachos/nachos-3.4/code/userprog/bitmap.cc:75-83 | the set read off the words holds exactly the items below n whose bit is set |
| BitMapModel.WordsFromMarks | nachos/nachos-3.4/code/userprog/bitmap.h:55-62 | equal sets of marks mean equal words, so restoring the set restores the map bit for bit |
| BitMapModel.BitMap.constructor | nachos/nachos-3.4/code/userprog/bitmap.cc:20-28 | a new map has nothing marked |
| BitMapModel.BitMap.Mark | nachos/nachos-3.4/code/userprog/bitmap.cc:47-51 | adds exactly one item to the set, whatever the word and bit position |
| BitMapModel.BitMap.Clear | nachos/nachos-3.4/code/userprog/bitmap.cc:61-65 | removes exactly one item from the set |
| BitMapModel.BitMap.Test | nachos/nachos-3.4/code/userprog/bitmap.cc:75-83 | true exactly for members of the set |
| BitMapModel.BitMap.Find | nachos/nachos-3.4/code/userprog/bitmap.cc:95-103 | returns and marks the least clear item; -1 and no change exactly when all are marked |
| BitMapModel.BitMap.NumClear | nachos/nachos-3.4/code/userprog/bitmap.cc:112-121 | is the cardinality of the complement of the set |
| BitMapModel.OneHoldingChanged | nachos/nachos-3.4/code/filesys/filehdr.cc:41-68 | replacing one holder's items by clear ones keeps holdings disjoint and the marks exact |
| Layout.HeaderRoundTrip | nachos/nachos-3.4/code/filesys/filehdr.cc:78-95 | a header written to its sector is read back unchanged |
| Layout.TableRoundTrip | nachos/nachos-3.4/code/filesys/directory.cc:64-80 | a directory table written as bytes is read back unchanged |
| Layout.HeaderPlaces | nachos/nachos-3.4/code/filesys/filehdr.h:60-63 | the header's words stand in the order of its fields, least significant byte first |
| Layout.WordIsPositional | nachos/nachos-3.4/code/filesys/filehdr.cc:78-95 | the first byte of a word counts least |
| Layout.EntryPlaces | nachos/nachos-3.4/code/filesys/directory.h:32-39 | entry k stands at byte 20 k with its fields in order |
| Layout.ContentFrame | nachos/nachos-3.4/code/filesys/filehdr.cc:107-121 | a file's content depends only on its own data sectors |
| FileHeaders.FileHeader.Allocate | nachos/nachos-3.4/code/filesys/filehdr.cc:42-53 | succeeds exactly when enough sectors are clear; then the header lists that many distinct sectors, clear before and marked now, and nothing else changed in the map; on failure the map is unchanged |
| FileHeaders.FileHeader.Deallocate | nachos/nachos-3.4/code/filesys/filehdr.cc:62-70 | clears exactly the header's data sectors; the assertion that each is still marked when its turn comes holds |
| Bits.DivRoundUpIsLeast | nachos/nachos-3.4/code/filesys/filehdr.cc:45-45 | the sector count is the least that holds the length |
| OpenFiles.OpenFile.ReadAt | nachos/nachos-3.4/code/filesys/openfile.cc:117-144 | delivers exactly the slice of the logical content, cut at end of file, for every alignment of both ends, and writes no other byte of the caller's buffer |
| OpenFiles.OpenFile.WriteAt | nachos/nachos-3.4/code/filesys/openfile.cc:147-186 | replaces exactly the bytes from position up to the smaller of the request and end of file, for every alignment, and changes no sector outside the file |
| OpenFiles.TransferIsMost | nachos/nachos-3.4/code/filesys/openfile.cc:117-158 | a transfer moves as much as was asked for and as the file still holds, and nothing for a request that is not positive |
| OpenFiles.WrittenByte | nachos/nachos-3.4/code/filesys/openfile.cc:147-186 | after a write each byte is the datum where the data reaches and the old byte elsewhere |
| OpenFiles.OpenFile.Read | nachos/nachos-3.4/code/filesys/openfile.cc:75-80 | ReadAt at the seek position, which advances by the count returned |
| OpenFiles.OpenFile.Write | nachos/nachos-3.4/code/filesys/openfile.cc:83-88 | WriteAt at the seek position, which advances by the count returned |
| OpenFiles.OpenFile.Seek | nachos/nachos-3.4/code/filesys/openfile.cc:56-59 | sets the seek position |
| OpenFiles.PartialSectorsFill | nachos/nachos-3.4/code/filesys/openfile.cc:164-175 | after the one or two partial-sector reads every byte of the buffer outside the request, and inside the file, is the file's own |
| OpenFiles.WriteThroughBuffer | nachos/nachos-3.4/code/filesys/openfile.cc:164-186 | writing whole sectors from such a buffer splices exactly the request into the content |
| SequentialIO.ChunkedWrite | nachos/nachos-3.4/code/filesys/openfile.cc:83-88 | writing any chunks in sequence gives the content and seek position that one write of their concatenation gives, also past end of file |
| SequentialIO.ChunkedRead | nachos/nachos-3.4/code/filesys/openfile.cc:75-80 | reading in any chunks delivers the bytes and seek position of one read |
| Directories.SameNameIsSameKey | nachos/nachos-3.4/code/filesys/directory.cc:91-99 | strncmp over nine characters decides equality of the NUL-padded nine-byte prefixes |
| Directories.KeyIsName | nachos/nachos-3.4/code/filesys/directory.cc:138-140 | the key is the name's own first nine characters, with NULs behind a shorter name |
| Directories.KeysAgree | nachos/nachos-3.4/code/filesys/directory.cc:94-96 | two names share a key exactly when their first nine characters agree |
| Directories.FoundUnderName | nachos/nachos-3.4/code/filesys/directory.cc:91-99 | an entry stored for one name is found under another exactly when their first nine characters agree |
| Directories.Directory.FindIndex | nachos/nachos-3.4/code/filesys/directory.cc:91-99 | the first used entry with that name prefix, or -1 |
| Directories.Directory.Find | nachos/nachos-3.4/code/filesys/directory.cc:109-116 | the header sector of that entry, or -1 |
| Directories.Directory.Add | nachos/nachos-3.4/code/filesys/directory.cc:130-145 | succeeds exactly when the name is absent and an entry is free; then only the first free entry changes |
| Directories.Directory.Remove | nachos/nachos-3.4/code/filesys/directory.cc:154-162 | succeeds exactly when the name is present; then only that entry becomes unused |
| Directories.AddedNames | nachos/nachos-3.4/code/filesys/directory.cc:130-145 | adding an absent name keeps names pairwise distinct and changes no other entry's name |
| FileSystems.MapFetchFrom | nachos/nachos-3.4/code/userprog/bitmap.cc:149-152 | the in-memory map becomes the set stored in the map file |
| FileSystems.MapWriteBack | nachos/nachos-3.4/code/userprog/bitmap.cc:162-165 | the map file then stores the in-memory set; only that file's sectors change |
| FileSystems.Format | nachos/nachos-3.4/code/filesys/filesys.cc:80-136 | formatting any disk establishes the ownership invariant with no files |
| FileSystems.FileSystem.constructor | nachos/nachos-3.4/code/filesys/filesys.cc:80-143 | formats, or opens an existing disk without changing it |
| FileSystems.FileSystem.Create | nachos/nachos-3.4/code/filesys/filesys.cc:175-215 | succeeds exactly when the name is absent, fewer than ten files exist and a header sector plus the data sectors are clear; otherwise no sector of the disk changes |
| FileSystems.FileSystem.Open | nachos/nachos-3.4/code/filesys/filesys.cc:228-241 | null exactly when the name is absent; otherwise a handle whose bytes are the file's content |
| FileSystems.FileSystem.Remove | nachos/nachos-3.4/code/filesys/filesys.cc:258-288 | succeeds exactly when the name is present; otherwise no sector of the disk changes |
| DiskState.FilesAndTable | nachos/nachos-3.4/code/filesys/directory.cc:91-116 | the directory search finds a name exactly when the abstract map has it, and counts agree |
| DiskState.OwnedFrame | nachos/nachos-3.4/code/filesys/filehdr.cc:62-121 | which sectors a file owns depends on its directory entry and its header sector only |
| DiskSteps.CreatedOwns | nachos/nachos-3.4/code/filesys/filesys.cc:186-209 | the sectors of a created file were owned by nobody, and are now its own |
| DiskSteps.CreatedFiles | nachos/nachos-3.4/code/filesys/filesys.cc:175-215 | Create keeps the ownership invariant, adds exactly one name with content of the asked length, and leaves every other file's content |
| DiskSteps.RemovedFiles | nachos/nachos-3.4/code/filesys/filesys.cc:258-288 | Remove keeps the ownership invariant and drops exactly one name |
| DiskSteps.WroteFiles | nachos/nachos-3.4/code/filesys/openfile.cc:147-186 | a write through a live handle keeps the ownership invariant and changes one file's content only |
| DiskRuns.StepRefines | nachos/nachos-3.4/code/filesys/filesys.cc:175-288 | every call keeps the invariant and is the matching step on a plain map from names to contents; on the map a Create succeeds exactly when the name is absent, fewer than ten names exist and the sectors that all contents need leave room |
| DiskRuns.FootprintIsMaps | nachos/nachos-3.4/code/filesys/filesys.cc:175-215 | the sectors the directory's files need are those the map's contents need |
| DiskRuns.Perform | nachos/nachos-3.4/code/filesys/filesys.cc:175-288 | every call of the implementation is such a step, with the result it returns |
| DiskRuns.PerformAll | nachos/nachos-3.4/code/filesys/filesys.cc:175-288 | a sequence of calls is a run |
| DiskRuns.WriteThrough | nachos/nachos-3.4/code/filesys/openfile.cc:147-186 | a write through any handle that still matches its slot, however long ago it was opened, is a write step, and the handle stays good |
| DiskRuns.KeptHandleWrites | nachos/nachos-3.4/code/filesys/filesys.cc:228-241 | a handle opened first and kept through any calls that do not remove its file then writes to that file and no other |
| DiskRuns.RunKeepsHandle | nachos/nachos-3.4/code/filesys/filesys.cc:228-241 | a handle stays good through any run that does not remove its file |
| DiskRuns.RunRefines | nachos/nachos-3.4/code/filesys/filesys.cc:80-288 | in every state of every run the free map marks exactly the sectors of the two system files and of the live files, all pairwise distinct, and the run is a run of the map |
| DiskRuns.RunKeepsSlot | nachos/nachos-3.4/code/filesys/filesys.cc:228-241 | a file keeps its directory slot and its header through any run that does not remove it |
| DiskRuns.CreateThenRemove | nachos/nachos-3.4/code/filesys/filesys.cc:175-288 | Create then Remove restores the free map bit for bit and the files |
| DiskRuns.Conservation | nachos/nachos-3.4/code/filesys/filesys.cc:80-288 | clear sectors plus those the listed files need are always the disk less four system sectors |
| KernelSafety.BootOk | nachos/nachos-3.4/code/threads/synch.cc:36-109 | the initial state satisfies the kernel invariant |
| KernelSafety.DispatchKeepsInv | nachos/nachos-3.4/code/threads/scheduler.cc:71-127 | dispatching the head of the ready list, with the deletion after SWITCH, keeps the invariant |
| KernelSafety.WaitingPKeepsInv | nachos/nachos-3.4/code/threads/synch.cc:65-74 | queueing in P on value 0, first time or again, keeps the invariant |
| KernelSafety.TakeKeepsInv | nachos/nachos-3.4/code/threads/synch.cc:70-79 | completing P, after waking or barging in, keeps the invariant |
| KernelSafety.WakeKeepsInv | nachos/nachos-3.4/code/threads/synch.cc:88-98 | V with a waiter keeps the invariant: one more woken thread for the larger value |
| KernelSafety.HandOffKeepsInv | nachos/nachos-3.4/code/threads/synch.cc:137-157 | releasing to the first waiter keeps the invariant although that thread has yet to resume |
| KernelSafety.ReturnKeepsInv | nachos/nachos-3.4/code/threads/synch.cc:116-134 | a thread resuming inside Acquire is the owner |
| KernelSafety.FinishingKeepsInv | nachos/nachos-3.4/code/threads/thread.cc:148-158 | Finish up to the switch keeps the invariant |
| KernelSafety.StepKeepsInv | nachos/nachos-3.4/code/threads/thread.cc:92-230 | every step of threads, handlers and the idle loop keeps the invariant |
| KernelSafety.RunKeepsInv | nachos/nachos-3.4/code/threads/thread.cc:92-230 | no interleaving of steps from boot leaves the invariant: status tags and queues agree, a lock is BUSY iff it has an owner, waiters imply BUSY, an owner is never queued, a finished thread is deleted at most once and never while current |
| KernelRuns.OnePlace | nachos/nachos-3.4/code/threads/thread.cc:92-230 | each thread is in exactly one of: on the CPU, once in the ready list, once in one wait queue, just created, finished; its status tag agrees, also when an idle-loop handler readies the sleeper |
| KernelRuns.DispatchedInTurn | nachos/nachos-3.4/code/threads/scheduler.cc:54-106 | the thread at index i of the ready list stays ready until the (i+1)-th later call of Run, which dispatches it, whatever happens meanwhile |
| KernelRuns.NoLostWakeup | nachos/nachos-3.4/code/threads/synch.cc:65-98 | in every run the value is the initial value plus Vs minus completed Ps, and with waiters queued it is at most the number of woken threads that have not re-tested |
| KernelRuns.OwnsInTurn | nachos/nachos-3.4/code/threads/synch.cc:116-157 | the waiter at index i owns the lock after exactly i+1 owner releases and not before |
| KernelRuns.AcquireReturnsAsOwner | nachos/nachos-3.4/code/threads/synch.cc:116-134 | Acquire returns, at once or after sleeping, only to the owner |
| KernelRuns.AcquireBlocks | nachos/nachos-3.4/code/threads/synch.cc:126-130 | a contended Acquire leaves the caller queued and inside the call |
| KernelRuns.LeaksExactlyWhen | nachos/nachos-3.4/code/threads/thread.cc:148-158 | a carcass is lost exactly when another thread finishes while it is still remembered |
| KernelRuns.DestroyedIffReaped | nachos/nachos-3.4/code/threads/scheduler.cc:91-127 | over any run a carcass waiting for deletion is deleted, once, exactly if a thread that has run before is dispatched before the next Finish |
| KernelRuns.FinishedIffReaped | nachos/nachos-3.4/code/threads/thread.cc:148-158 | from Finish on, the thread is deleted, once, exactly if the switch in Finish itself or a later one before the next Finish goes to a thread that has run before |
| KernelRuns.LeakExample | nachos/nachos-3.4/code/threads/thread.cc:148-158 | a reachable state with a finished thread that is never deleted |
| KernelLaws.ReadyIsFifo | nachos/nachos-3.4/code/threads/scheduler.cc:54-74 | only a switch takes from the ready list, its head, and what a step makes ready joins at the end |
| KernelLaws.ThreadsGrow | nachos/nachos-3.4/code/threads/thread.cc:35-105 | threads come by creation alone, and a new one stays as created until forked |
| KernelLaws.CallsChange | nachos/nachos-3.4/code/threads/synch.cc:65-134 | P and Acquire hold their caller exactly when the value is 0 or another thread owns the lock, and nobody else is put into a call or let out |
| KernelLaws.OwnershipMoves | nachos/nachos-3.4/code/threads/synch.cc:116-164 | a free lock goes to whoever acquires it; a held one stays with its owner until the owner releases it, then goes to the first waiter or is free; contenders queue at the end |
| KernelLaws.HeldUntilReleased | nachos/nachos-3.4/code/threads/synch.cc:116-164 | over any run the owner stays the owner until it releases |
| KernelLaws.QueueIsFifo | nachos/nachos-3.4/code/threads/synch.cc:65-98 | V takes the head of the wait queue, a thread that finds the value 0 stands last, nothing else touches it |
| KernelLaws.WokenInTurn | nachos/nachos-3.4/code/threads/synch.cc:65-98 | the waiter at index i sleeps until exactly the (i+1)-th V, which puts it last in the ready list |
| KernelObject.Kernel.ReadyToRun | nachos/nachos-3.4/code/threads/scheduler.cc:54-60 | marks the thread ready and appends it to the linked ready list |
| KernelObject.Kernel.FindNextToRun | nachos/nachos-3.4/code/threads/scheduler.cc:71-74 | removes and returns the head of the linked ready list, if any |
| KernelObject.Kernel.Run | nachos/nachos-3.4/code/threads/scheduler.cc:91-127 | is the switch of the step system; the thread deleted is never the current one |
| KernelObject.Kernel.Fork | nachos/nachos-3.4/code/threads/thread.cc:92-105 | is the fork step |
| KernelObject.Kernel.Yield | nachos/nachos-3.4/code/threads/thread.cc:179-194 | is the yield step: no change when nobody is ready, else to the end of the list |
| KernelObject.Kernel.Sleep | nachos/nachos-3.4/code/threads/thread.cc:216-230 | is the sleep of the step system, up to the switch or the idle loop |
| KernelObject.Kernel.Finish | nachos/nachos-3.4/code/threads/thread.cc:148-158 | is the finish step |
| KernelObject.Kernel.P | nachos/nachos-3.4/code/threads/synch.cc:65-79 | is one round of the loop in P, and says whether it got through |
| KernelObject.Kernel.V | nachos/nachos-3.4/code/threads/synch.cc:88-98 | is the V step |
| KernelObject.Kernel.Acquire | nachos/nachos-3.4/code/threads/synch.cc:116-134 | is the acquire step; when it returns at once the caller owns the lock |
| KernelObject.Kernel.Release | nachos/nachos-3.4/code/threads/synch.cc:137-164 | is the release step: nothing for a non-owner, hand-off with waiters, free without |
| SynchDiskProtocol.CompletionsBalance | nachos/nachos-3.4/code/filesys/synchdisk.cc:73-109 | in every interleaving semaphore value plus outstanding interrupts is 1 exactly while the lock owner's request is unconsumed, else 0; the disk's not-active assertion never fires |
| SynchDiskProtocol.CallsAreAtomic | nachos/nachos-3.4/code/filesys/synchdisk.cc:73-98 | a call returns only after its own completion; its request, with the arguments of that call, reached the disk after every request made before the call began; a read returns what was last written to its sector before it |
| SynchDiskProtocol.ReadsLastWrite | nachos/nachos-3.4/code/machine/disk.cc:116-152 | by the record of requests, each read got the data of the last write to its sector before it, or the initial data, and so does the disk now |
| SynchDiskProtocol.InsideItsCall | nachos/nachos-3.4/code/filesys/synchdisk.cc:73-98 | a thread inside a call is there with the arguments of its latest call |
| SynchDiskProtocol.SleeperIsOwed | nachos/nachos-3.4/code/filesys/synchdisk.cc:73-109 | a thread asleep on the completion semaphore owns the lock and has an interrupt on the way |
| SynchDiskProtocol.NoDeadlock | nachos/nachos-3.4/code/filesys/synchdisk.cc:73-109 | while a call is in progress some step of it or of the device is possible |
| SynchDiskProtocol.StepKeepsInv | nachos/nachos-3.4/code/machine/disk.cc:116-166 | every step of callers and device keeps the protocol's invariant |
| ConsoleProtocol.OutputIsWholeBuffers | nachos/nachos-3.4/code/threads/synchcons.cc:71-87 | in every interleaving of any number of writers the output is whole buffers, as passed in the calls, in order of gaining WLineBlock plus a prefix of the current one; PutChar's assertion never fires |
| ConsoleProtocol.GainedAreArguments | nachos/nachos-3.4/code/threads/synchcons.cc:71-87 | what each writer writes on gaining the line is the argument of its call |
| ConsoleProtocol.ReturnsWhenWritten | nachos/nachos-3.4/code/threads/synchcons.cc:71-87 | a write returns with its whole buffer at the end of the output |
| ConsoleProtocol.NoDeadlock | nachos/nachos-3.4/code/threads/synchcons.cc:71-87 | while a write is in progress some step is possible, although a woken writer may find the line taken again |
| ConsoleProtocol.StepKeepsInv | nachos/nachos-3.4/code/machine/console.cc:113-150 | every step of writers and device keeps the protocol's invariant |
| JoinExit.JoinedIsSafe | nachos/nachos-3.4/code/threads/ptable.cc:74-140 | with the join registered in time the parent reads the code the child set, the block is removed only after that, and each semaphore is signalled and consumed at most once |
| JoinExit.RunsAreShort | nachos/nachos-3.4/code/threads/pcb.cc:79-100 | every run of the handshake ends within thirteen steps |
| JoinExit.CompletesIff | nachos/nachos-3.4/code/threads/ptable.cc:74-153 | a finished run is complete (code read, child gone, slot free, semaphores signalled and consumed once) if and only if the join was registered before the child's test and the exit code is 0; otherwise who is stuck or dangling |
| JoinExit.NonzeroCodeExample | nachos/nachos-3.4/code/threads/ptable.cc:129-137 | an orderly join of a child exiting with 1 leaves the child waiting for ever |
| JoinExit.LateJoinExample | nachos/nachos-3.4/code/threads/ptable.cc:114-127 | a join after the child is gone reaches for the deleted block |
| ProcessTable.PTable.constructor | nachos/nachos-3.4/code/threads/ptable.cc:5-15 | only slot 0 is taken and all pointers are NULL |
| ProcessTable.PTable.ExecUpdate | nachos/nachos-3.4/code/threads/ptable.cc:31-72 | takes the least free slot; refuses without any change exactly when the file does not open, the caller would run itself, or all ten slots are taken |
| ProcessTable.PTable.JoinLookup | nachos/nachos-3.4/code/threads/ptable.cc:106-127 | goes on exactly for a live child of the caller; reads deleted memory exactly for a slot that was used and freed |
| ProcessTable.PTable.Remove | nachos/nachos-3.4/code/threads/ptable.cc:144-153 | frees exactly the one slot; a pointer to a block stays and dangles |
| LinkedList.List.Append | nachos/nachos-3.4/code/threads/list.cc:77-88 | adds at the end, through first and last pointers |
| LinkedList.List.SortedInsert | nachos/nachos-3.4/code/threads/list.cc:179-203 | inserts behind all elements with keys not larger, keeping the chain well formed |
| LinkedList.List.SortedRemove | nachos/nachos-3.4/code/threads/list.cc:218-237 | removes and returns the first element with its key, or nothing |
| LinkedList.List.Remove | nachos/nachos-3.4/code/threads/list.cc:125-128 | removes and returns the first element's item, or nothing |
| LinkedList.InsertedSorted | nachos/nachos-3.4/code/threads/list.cc:179-203 | sorted insertion keeps the list sorted |
| LinkedList.InsertedElements | nachos/nachos-3.4/code/threads/list.cc:179-203 | and adds exactly one element |
| InterruptSim.ScheduleKeepsInv | nachos/nachos-3.4/code/machine/interrupt.cc:265-274 | scheduling keeps the pending list sorted and accounted for |
| InterruptSim.CheckIfDueKeepsInv | nachos/nachos-3.4/code/machine/interrupt.cc:291-336 | CheckIfDue keeps the invariant and never moves the clock back |
| InterruptSim.RoundFiresOne | nachos/nachos-3.4/code/machine/interrupt.cc:151-179 | each firing round leaves one due interrupt less, which ends the loop |
| InterruptSim.LoopLeavesNothingDue | nachos/nachos-3.4/code/machine/interrupt.cc:151-179 | the loop keeps the invariant and the clock, and ends with nothing due or, in idle mode, with the timer alone |
| InterruptSim.LeavesDueExactlyWhen | nachos/nachos-3.4/code/machine/interrupt.cc:151-231 | the loop leaves something due if and only if it starts in idle mode with a due timer last in the list and no handler before it schedules anything |
| InterruptSim.TimerLeftExample | nachos/nachos-3.4/code/machine/interrupt.cc:211-336 | from the start, a disk and then a timer interrupt due at one tick: idling fires the disk and leaves the timer due |
| InterruptSim.RunKeepsInv | nachos/nachos-3.4/code/machine/interrupt.cc:151-336 | over every run: pending sorted by time, none fired early, fire times nondecreasing, total ticks the sum of idle, system and user |
| InterruptSim.RunFromStart | nachos/nachos-3.4/code/machine/interrupt.cc:60-336 | the machine starts with the invariant and never leaves it |
| InterruptSim.ExactlyOnce | nachos/nachos-3.4/code/machine/interrupt.cc:265-336 | over every run each scheduled interrupt is either pending once or has fired once |
| InterruptSim.TimeByMode | nachos/nachos-3.4/code/machine/interrupt.cc:151-162 | a clock tick costs 10 in system mode and 1 otherwise and is booked there; nothing else but idling takes time |
| InterruptSim.RunTimeByMode | nachos/nachos-3.4/code/machine/interrupt.cc:151-162 | over any run system time is 10 per tick in system mode and user time 1 per other tick |
| InterruptSim.IdleExactly | nachos/nachos-3.4/code/machine/interrupt.cc:211-231 | idling moves the clock to the first pending interrupt if that lies ahead, and halts exactly when nothing but perhaps one timer is pending |
| InterruptSim.ScheduledAsAsked | nachos/nachos-3.4/code/machine/interrupt.cc:265-274 | what is scheduled is put down for now plus the delay asked for, with its kind |
| InterruptSim.FiresEarliest | nachos/nachos-3.4/code/machine/interrupt.cc:291-336 | what fires is due no later than anything pending, and is recorded at the current time |
| InterruptSim.YieldsWhenAsked | nachos/nachos-3.4/code/machine/interrupt.cc:151-179 | a tick yields exactly when a request was left over or a handler fired in it asked, and leaves none behind |
| InterruptDevice.Interrupt.Schedule | nachos/nachos-3.4/code/machine/interrupt.cc:265-274 | is the schedule function of the simulation, by sorted insertion into the linked list |
| InterruptDevice.Interrupt.CheckIfDue | nachos/nachos-3.4/code/machine/interrupt.cc:291-336 | is its check, result included, taking the head off the linked list and putting it back |
| InterruptDevice.Interrupt.FireAllDue | nachos/nachos-3.4/code/machine/interrupt.cc:168-169 | terminates and is its loop |
| InterruptDevice.Interrupt.OneTick | nachos/nachos-3.4/code/machine/interrupt.cc:151-179 | is its tick, with the requested yield |
| InterruptDevice.Interrupt.Idle | nachos/nachos-3.4/code/machine/interrupt.cc:211-231 | is its idle step, false when the machine halts |
| InterruptDevice.Interrupt.SetLevel | nachos/nachos-3.4/code/machine/interrupt.cc:115-129 | advances time exactly when interrupts go from off to on |
| DiskTiming.ModuloDiffIsDistance | nachos/nachos-3.4/code/machine/disk.cc:203-210 | the least number of sectors to pass before the wanted one comes round |
| DiskTiming.SeekPerTrack | nachos/nachos-3.4/code/machine/disk.cc:180-193 | seeking costs nothing on one track, SEEK_TIME to a neighbour, the same both ways, and adds up over tracks in order |
| DiskTiming.SlowPathIsEarliest | nachos/nachos-3.4/code/machine/disk.cc:233-253 | off the fast path the transfer starts at the first sector boundary at or after the seek's end with the requested sector under the head |
| DiskTiming.LatencyBounds | nachos/nachos-3.4/code/machine/disk.cc:180-253 | latency is at least one rotation slot, so positive as Schedule requires, and has a fixed upper bound |
| DiskTiming.FastPathIsExact | nachos/nachos-3.4/code/machine/disk.cc:233-253 | the fast path is taken exactly for reads on the current track whose sector passed whole between the start of the buffer and the next boundary |
| DiskTiming.FastLatency | nachos/nachos-3.4/code/machine/disk.cc:243-246 | a buffered read takes exactly one rotation slot |
| DiskTiming.RequestLeaves | nachos/nachos-3.4/code/machine/disk.cc:116-152 | after a request the disk is busy for the latency and stands at the sector; the buffer restarts only on another track, at the first boundary after the seek |
| DiskTiming.IdleBufferIsPast | nachos/nachos-3.4/code/machine/disk.cc:116-271 | in every run, while the disk is idle, bufferInit is a sector boundary not in the future |
| DiskTiming.DiskDevice.ComputeLatency | nachos/nachos-3.4/code/machine/disk.cc:233-253 | is the latency function |
| DiskTiming.DiskDevice.UpdateLast | nachos/nachos-3.4/code/machine/disk.cc:262-271 | restarts the buffer exactly after a seek |
| DiskTiming.DiskDevice.Request | nachos/nachos-3.4/code/machine/disk.cc:116-152 | is the request step |
| Multiplier.MultiplyUnsigned | nachos/nachos-3.4/code/machine/mipssim.cc:655-678 | the loop computes the exact product although it shifts the multiplier arithmetically and exits early |
| Multiplier.AddDword | nachos/nachos-3.4/code/machine/mipssim.cc:664-669 | double-word addition with carry |
| Multiplier.DoubleDword | nachos/nachos-3.4/code/machine/mipssim.cc:671-676 | double-word shift |
| Multiplier.Mult | nachos/nachos-3.4/code/machine/mipssim.cc:635-692 | hi:lo is the exact 64-bit product for all 32-bit operands, signed and unsigned, INT_MIN included |
| Memory.AccessFits | nachos/nachos-3.4/code/machine/translate.cc:187-255 | a translated access stays inside its frame, so the closing assertion holds |
| Memory.TranslateCases | nachos/nachos-3.4/code/machine/translate.cc:187-255 | for any table which exception is raised in each case, and the physical address otherwise |
| Memory.AccessSucceedsIff | nachos/nachos-3.4/code/machine/translate.cc:88-255 | through a table that AddrSpace built an access succeeds exactly when it is aligned and ends inside the space |
| Memory.UnsignedOfInt | nachos/nachos-3.4/code/machine/translate.cc:208-209 | a negative address counts down from the top of the unsigned range |
| Memory.StoredIsModulo | nachos/nachos-3.4/code/machine/translate.cc:138-164 | the stored bytes are the value modulo 256 to the size, whether or not it fits |
| Memory.LoadedIsSigned | nachos/nachos-3.4/code/machine/translate.cc:88-115 | a byte and a word are read signed, a halfword unsigned |
| Memory.StoreLoad | nachos/nachos-3.4/code/machine/translate.cc:88-164 | a stored value is read back exactly when the size can represent it; bytes are signed and halfwords unsigned |
| Memory.WriteIsIsolated | nachos/nachos-3.4/code/machine/translate.cc:138-164 | a successful write changes exactly the addressed bytes of its space and no byte any space sees otherwise |
| Memory.OthersReadTheSame | nachos/nachos-3.4/code/machine/translate.cc:88-164 | and every read through another table keeps its value or fault |
| Memory.ReadSeesOwnBytes | nachos/nachos-3.4/code/machine/translate.cc:88-115 | a read returns the space's own bytes |
| Memory.ReadBack | nachos/nachos-3.4/code/machine/translate.cc:88-164 | reading what was just written returns it exactly when representable |
| Machines.Machine.TranslateAddress | nachos/nachos-3.4/code/machine/translate.cc:187-255 | is the translation, each exception included; use and dirty bits set on success only |
| Machines.Machine.ReadMemory | nachos/nachos-3.4/code/machine/translate.cc:88-115 | is the read, memory unchanged |
| Machines.Machine.WriteMemory | nachos/nachos-3.4/code/machine/translate.cc:138-164 | is the write; on a fault neither memory nor table changes |
| Machines.AddrSpace.constructor | nachos/nachos-3.4/code/userprog/addrspace.cc:66-117 | takes clear frames, one per page, into a valid table, or no pages at all when too few are clear |
| Machines.PagesFit | nachos/nachos-3.4/code/userprog/addrspace.cc:85-88 | segments and stack fit into the pages and not into one fewer, exactly as long as the sizes do not add up beyond an unsigned int |
| Machines.AddrSpace.Destroy | nachos/nachos-3.4/code/userprog/addrspace.cc:235-243 | clears exactly the table's frames |
| Machines.RunKeepsInv | nachos/nachos-3.4/code/userprog/addrspace.cc:66-243 | over any order of construction, destruction and memory traffic, live tables use pairwise disjoint frames in range that are exactly the marked ones |
| Machines.RunSparesOthers | nachos/nachos-3.4/code/machine/translate.cc:88-255 | whatever all other spaces do meanwhile, segment loading aside, a space that does nothing reads the same values and takes the same faults |
| Machines.BitsTellAccess | nachos/nachos-3.4/code/machine/translate.cc:248-250 | over any run a page becomes dirty exactly by a write to it and used exactly by an access, and nothing else of its entry changes |
| Decimal.LexicographicIsNumeric | nachos/nachos-3.4/code/userprog/exception.cc:252-290 | strcmp on equally many digits is numeric order, with text behind the digits counting as greater |
| Decimal.ReadInt | nachos/nachos-3.4/code/userprog/exception.cc:201-306 | the loops and checks accept exactly the well-formed lines in range, with the value of their numeral |
| Decimal.AcceptedMeansNumeral | nachos/nachos-3.4/code/userprog/exception.cc:201-306 | an accepted line's value is an int and is the signed value of its digits |
| Decimal.PartsParse | nachos/nachos-3.4/code/userprog/exception.cc:201-306 | what a line made of an optional sign, digits and an optional point with zeros is read as |
| Decimal.OnlyPartsParse | nachos/nachos-3.4/code/userprog/exception.cc:215-242 | a line is invalid exactly when it is not made of such parts |
| Decimal.DigitsAre | nachos/nachos-3.4/code/userprog/exception.cc:233-297 | the digits are 0 to 9 with their usual values |
| Decimal.RefusedNumerals | nachos/nachos-3.4/code/userprog/exception.cc:248-292 | a well-formed numeral of int value is refused exactly when it has more than ten digits, so leading zeros, or stands at the limit followed by a point |
| Decimal.LeadingZerosExample | nachos/nachos-3.4/code/userprog/exception.cc:275-282 | 00000000001, of value 1, is refused as out of range |
| Decimal.LimitPointExample | nachos/nachos-3.4/code/userprog/exception.cc:283-292 | the largest int followed by a point is refused as out of range |
| Decimal.Accumulate | nachos/nachos-3.4/code/userprog/exception.cc:294-300 | the wrapping accumulation yields the wrapped numeral value |
| Decimal.PrintInt | nachos/nachos-3.4/code/userprog/exception.cc:308-354 | writes the sign and the digits that truncating division gives, into a buffer of the counted size |
| Decimal.DigitsDenote | nachos/nachos-3.4/code/userprog/exception.cc:331-343 | for a positive number these are decimal digits denoting it, with no leading zero |
| Decimal.PrintedForm | nachos/nachos-3.4/code/userprog/exception.cc:308-354 | the output is never empty, starts with '-' exactly for negatives and with '0' exactly for 0, and is digits otherwise, the least int excepted |
| Decimal.RoundTrip | nachos/nachos-3.4/code/userprog/exception.cc:201-354 | ReadInt of PrintInt's output returns the number for every int except the least |
| Decimal.PrintNormalizes | nachos/nachos-3.4/code/userprog/exception.cc:201-354 | printing what an accepted line was read as, and reading that again, changes nothing, the least int excepted |
| Decimal.LeastIntIsInvalid | nachos/nachos-3.4/code/userprog/exception.cc:320-343 | for the least int the output is not a numeral at all |

## Left out

- FileSystems.FileSystem.Create: assumes an initial size between 0 and MaxFileSize, because Allocate does not check it and would overrun the header.
- FileSystems.FileSystem.constructor: a disk opened without formatting must satisfy the invariant, as one left by an earlier run does; arbitrary images are not covered.
- OpenFiles.OpenFile.ReadAt: assumes a nonnegative position; bytes past end of file in the last sector are unspecified.
- DiskRuns.RunRefines: no concurrent callers and no use of a handle after its file is removed, as the file system's own comments demand; crashes between sector writes are not modelled.
- Layout.TableRoundTrip: the padding bytes of a directory entry are taken as 0, where C leaves whatever memory held.
- Kernel: thread numbers are never reused, so a new thread cannot have the address of a deleted lock owner; the carcass memory itself is not modelled.
- KernelObject.Kernel.P: one round of the loop per call, because the loop goes on only after other threads have run; wait queues of semaphores and locks are held by their contents, only the ready list is the linked object.
- InterruptDevice.Interrupt.CheckIfDue: the inHandler flag and the choice of handler code are left out, a handler being the interrupts it schedules and its request to yield.
- InterruptSim.RunKeepsInv: ticks are unbounded; the order of interrupts with equal times is not claimed, because a head put back goes behind its ties.
- DiskTiming.LatencyBounds: ticks are unbounded, where the source's int would overflow after two billion of them.
- SynchDiskProtocol.CallsAreAtomic: scheduling is arbitrary, a superset of what the FIFO scheduler allows; data moves when the request is made, as in the simulated disk.
- JoinExit.CompletesIff: one parent and one child; a second Join of the same child is not modelled.
- ProcessTable.PTable.ExecUpdate: the mutual exclusion by bmsem and the start of the new thread are left out.
- Machines.AddrSpace.constructor: the header check, the file-name form of the constructor and the loading of segments, whose target addresses add virtualAddr to every frame, are left out; an executable needing more than all frames fails an assertion in the source and is excluded here.
- Machines.RunSparesOthers: constructing a space does not load its segments here; in the source that writes at virtualAddr plus the frame's address, which can lie in a frame of another space.
- Memory.AccessFits: the page-table form of translation only; the TLB form adds a search.
- Decimal.ReadInt: console input is the line that was read and its count.
- MIPS instruction decoding and execution other than multiplication.
- Condition variables (empty in the source), SynchList, the network and the post office.
- Host calls, assembly context switching, stacks, statistics, debugging output, user programs.
