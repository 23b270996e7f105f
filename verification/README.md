# Brane OS kernel: a verified model

This project models ten parts of the Brane OS kernel in Dafny and proves what they promise: the multi-core
run queues, the FAT32 reader, the bitmap frame allocator, the in-memory filesystem, PCI discovery and
message-signalled interrupts, user-memory validation, the USB mass-storage engine, the Brane session protocol and
signals. `dafny verify dfyconfig.toml` checks everything.

Code that changes state in place is a class or a method over arrays, proved against a step function on values;
what the kernel promises is then proved about those step functions, one step at a time and over every run.
Devices, transports, page tables and ciphers are arbitrary: a register may keep any value, a transfer may return
anything, a disk may hold any bytes.

## The parts

- **Scheduling** (`RunQueue`, `BoundedWait`, `SchedulerModel`, `SchedulerSafety`, `SchedulerLaws`, `Scheduler`). A task
  is in at most one queue slot or running slot in every reachable state, and the exact number of quanta a queued task
  waits is given in closed form. `SchedulerLaws` says of every operation when it succeeds, which queue it picks, and
  what alone it changes. The source's comments call the queues round-robin and say that `complete` cannot fail;
  neither holds in general. Rotation is fair exactly up to two tasks, and `complete` loses the running task exactly
  when arrivals filled its queue meanwhile, which takes more than 64 owned tasks.
- **FAT32** (`Block`, `FatGeometry`, `FatRead`, `FatDirectory`, `FatVolume`, `FatRoundTrip`, `FatPath`). Accepted
  geometry makes every later access legal; a file read is the slice of the concatenated cluster chain, on any disk and
  any FAT; the guard against cycles never rejects a chain without one. The other direction starts from a formatter:
  whatever volume it lays out on a disk, with any number of FAT copies, any entries in them and any clusters, mounting
  finds that volume and reading a path gives the bytes that were written into that file's clusters.
- **Frames** (`FrameAllocator`). The bitmap refines a set of free frames; the byte-skipping searches return what a
  frame-by-frame scan would; live allocations never overlap. `mark_region_free` says that its ends are aligned
  "down/up" but rounds both down; the model follows the code, and `FreeingStaysInsideIff` says when a frame partly
  outside the region is freed.
- **RamFS** (`Path`, `RamFsModel`, `RamFsTree`, `RamFsSafety`, `RamFsLaws`, `RamFs`). Every run of create, write and
  remove on names that fit keeps a tree, and refines a map from paths to contents: each operation changes what its path
  holds and nothing else. In general a run stays a tree exactly as long as no create, with room for it, has a name
  over 64 whose first 64 characters are a sibling's and no path of slashes removes an empty root.
- **PCI** (`PciTopology`, `PciWalk`, `Ecam`, `Capabilities`, `InterruptRegisters`, `Msi`, `MsiArming`, `ArmDevice`). The
  walk scans exactly the buses that header bytes lead to, breadth first, and records each function as its bytes describe
  it; the configuration-space map is injective; a capability list is accepted
  exactly when it ends properly; publishing an interrupt is a transaction that survives any faulty writes, and a
  device that keeps what is written is armed by the first mechanism it offers. MSI and
  MSI-X registers are words of one configuration space. A comment in the source promises that the two mechanisms are
  never enabled together. That holds whenever the MSI-X entry starts at none of the MSI registers, but the list may say
  otherwise: if MSI-X starts at the MSI address, arming MSI sets the MSI-X enable bit.
- **User memory** (`UserRange`, `PageWalk`, `AddressSpace`, `Process`). A range is accepted exactly when the processor's
  own four-level walk allows every byte and the direct map reaches the tables on the way; pinned generations cannot
  change.
- **USB storage** (`Endian`, `UsbWire`, `UsbStorage`). Whatever the transport does, the wire carries orderly
  exchanges, recovery runs exactly when needed, and a failed recovery is the last thing ever sent.
- **Sessions** (`SessionCodec`, `Session`, `SessionLaws`, `Tunnel`). The wire formats round-trip exactly within their
  length fields. The state, key and peer after any run are read off its operations.
  Each installed key counts its nonces from zero; a key and nonce are used only once exactly when no two
  installations that sealed, on either end, share a key, which both a second handshake with the same answer and
  traffic in both directions violate. What a receiver accepts is exactly what some installation of the key, on
  either end and from any handshake, sent in that place; so it accepts only the peer's current messages exactly when no
  other packet of the key comes in its place. Reflected packets do, and so do replayed ones after a second handshake
  with the same answer.
- **Signals** (`Signals`, `SignalMask`, `SignalLaws`, `Process`, `SignalManager`). Kill and stop can be neither blocked
  nor caught in any reachable state, so a pending kill always ends the process. A delivery acts on the first signal in
  priority that is not harmless.

## Model

| member | source | states |
|---|---|---|
| `RunQueue.RemoveKeepsWellFormed` | kernel/src/sched.rs:171-184 | removing a queued task leaves every other task queued once, with the cursor still on a slot |
| `RunQueue.PopOne` | kernel/src/sched.rs:186-207 | popping the rotation's choice takes out that task alone and keeps the others' order |
| `RunQueue.PopUnderCursor` | kernel/src/sched.rs:186-220 | with nothing excluded the task under the cursor leaves, and the cursor skips the slot that closes the gap |
| `RunQueue.PopFinds` | kernel/src/sched.rs:209-220 | a successor other than the excluded task is found exactly when one is queued, and it alone leaves |
| `RunQueue.CpuRunQueue.Enqueue` | kernel/src/sched.rs:156-169 | the array holds the old tasks plus the new one, or is unchanged with the right refusal |
| `RunQueue.CpuRunQueue.Remove` | kernel/src/sched.rs:171-184 | shifting the array down closes the gap and fixes the cursor as the value model says |
| `RunQueue.CpuRunQueue.Next` | kernel/src/sched.rs:186-195 | rotation returns the task under the cursor and moves the cursor only |
| `RunQueue.CpuRunQueue.PopNextExcluding` | kernel/src/sched.rs:209-220 | the bounded retry loop refines the recursive pop on values |
| `BoundedWait.RoundIsQuantum` | kernel/src/sched.rs:372-388 | one dispatch and complete on a queue moves the task under the cursor to the back and advances the cursor |
| `BoundedWait.RoundsPermute` | kernel/src/sched.rs:171-219 | after any number of quanta the same tasks are queued, each once |
| `BoundedWait.ExactWait` | kernel/src/sched.rs:171-219 | the wait recurrence is exact: slot i runs in that quantum and in none before it |
| `BoundedWait.WaitBehindCursor` | kernel/src/sched.rs:186-195 | a slot the cursor has passed keeps its place until the cursor wraps |
| `BoundedWait.WaitAheadOfCursor` | kernel/src/sched.rs:171-195 | ahead of the cursor even distances run in half as many quanta; odd ones survive the pass at half the distance |
| `BoundedWait.WaitClosedForm` | kernel/src/sched.rs:171-219 | with i + 1 = 2^p (2m + 1), slot i of n waits exactly p (n - 1) + m quanta from cursor 0 |
| `BoundedWait.Decompose` | kernel/src/sched.rs:171-219 | every slot number has the decomposition the closed form uses |
| `BoundedWait.WaitBound` | kernel/src/sched.rs:436-445 | every slot of n runs within (log2 n + 2)(n - 1) quanta wherever the cursor is |
| `BoundedWait.NoStarvation` | kernel/src/sched.rs:129-135 | on 64-slot queues no queued task waits more than 504 quanta |
| `BoundedWait.RoundRobinIffTwo` | kernel/src/sched.rs:186-219 | every task runs once in every n quanta if and only if n is at most two |
| `BoundedWait.ThreeTasks` | kernel/src/sched.rs:186-219 | three tasks a, b, c run a, c, b, c forever |
| `SchedulerSafety.LeastLoadedIsFirstMinimum` | kernel/src/sched.rs:267-297 | assignment picks a least-loaded CPU and the first such one in rotation order |
| `SchedulerSafety.LeastLoadedIsMinimal` | kernel/src/sched.rs:267-297 | no configured CPU has a shorter queue than the one chosen |
| `SchedulerSafety.BusiestIsFirstMaximum` | kernel/src/sched.rs:341-366 | the victim of a steal is the lowest-numbered busiest peer, and exists when any peer has work |
| `SchedulerSafety.EnqueueKeeps` | kernel/src/sched.rs:267-297 | exclusive ownership is kept and grows by that task alone on Ok; refusals change nothing and mean zero, owned already, or every queue full |
| `SchedulerSafety.EnqueueOnCpuKeeps` | kernel/src/sched.rs:299-317 | the task becomes owned by that CPU alone, or nothing changes |
| `SchedulerSafety.DequeueKeeps` | kernel/src/sched.rs:319-331 | true exactly when the CPU queued or ran the task, which is then owned nowhere |
| `SchedulerSafety.PickNextKeeps` | kernel/src/sched.rs:333-339 | rotating a queue moves no ownership |
| `SchedulerSafety.StealKeeps` | kernel/src/sched.rs:341-366 | a steal moves the victim's oldest task to the thief, conserves ownership, and its `expect` cannot fail |
| `SchedulerSafety.DispatchKeeps` | kernel/src/sched.rs:368-415 | the local task under the cursor, else a stolen one taken out of the queue again, so the fallback is never used; idle only when every active queue is empty |
| `SchedulerSafety.CompleteKeeps` | kernel/src/sched.rs:436-445 | the task returns to its queue unless the queue filled up; then exactly that task is lost |
| `SchedulerSafety.StepConserves` | kernel/src/sched.rs:254-445 | a step changes the owned set as its result says if and only if it is not a losing complete |
| `SchedulerSafety.EveryRunIsExclusive` | kernel/src/sched.rs:228-445 | the ownership invariant holds after every sequence of operations from boot |
| `SchedulerSafety.OnePlaceOnly` | kernel/src/sched.rs:228-445 | in every reachable state a task is in at most one queue slot or running slot |
| `SchedulerSafety.RunConserves` | kernel/src/sched.rs:254-445 | with at most 64 owned tasks throughout, only enqueue, dequeue and reconfiguration change what is owned |
| `SchedulerSafety.CompleteNeverFull` | kernel/src/sched.rs:436-445 | with at most 64 owned tasks complete succeeds on every configured CPU |
| `SchedulerSafety.OverloadLosesTask` | kernel/src/sched.rs:436-445 | a run in which complete drops its task, which is then owned nowhere |
| `SchedulerSafety.QuantaAreRounds` | kernel/src/sched.rs:372-388 | quanta on one CPU of the coordinator are exactly rounds of its queue, other CPUs untouched |
| `SchedulerSafety.QueuedTaskRuns` | kernel/src/sched.rs:372-445 | a task queued on a CPU is dispatched there within 504 quanta |
| `SchedulerLaws.ConfigureExactly` | kernel/src/sched.rs:254-260 | any count is clamped to 1 to 32, nothing is owned afterwards and assignment starts at CPU 0 |
| `SchedulerLaws.EnqueueExactly` | kernel/src/sched.rs:267-297 | Ok exactly for a new nonzero task when some queue has room; the chosen queue has the least load, and less than every CPU before it in rotation; that queue gets the task at its end, nothing else changes, and rotation goes on behind it |
| `SchedulerLaws.EnqueueOnCpuExactly` | kernel/src/sched.rs:299-317 | Ok exactly for a configured CPU with room and a new nonzero task, which goes to the end of that queue alone |
| `SchedulerLaws.DequeueExactly` | kernel/src/sched.rs:319-331 | true exactly when the CPU queues or runs the task; its slot closes up or the CPU goes idle, and nothing else changes |
| `SchedulerLaws.PickNextExactly` | kernel/src/sched.rs:333-339 | the task under the cursor, which moves on by one around the queue; nothing else changes |
| `SchedulerLaws.StealExactly` | kernel/src/sched.rs:341-366 | a task is stolen exactly when the thief has room and a peer has work; it is the oldest of the first busiest peer and goes to the end of the thief's queue |
| `SchedulerLaws.DispatchExactly` | kernel/src/sched.rs:368-415 | a running CPU keeps its task; a queued one under the cursor runs next; an empty CPU runs the oldest task of the first busiest peer if it may steal and there is one, and is idle exactly otherwise |
| `SchedulerLaws.CompleteExactly` | kernel/src/sched.rs:436-445 | the running task goes to the end of its queue, or is dropped exactly when the queue is full |
| `SchedulerLaws.HandoffExactly` | kernel/src/sched.rs:417-434 | a running task is returned as the previous one and only requeued; an idle CPU only dispatches |
| `Scheduler.MultiCoreScheduler.Configure` | kernel/src/sched.rs:254-260 | the arrays are reset to the empty coordinator with the clamped CPU count |
| `Scheduler.MultiCoreScheduler.SelectLeastLoaded` | kernel/src/sched.rs:267-297 | the scan over CPUs in rotation order returns the specified minimum |
| `Scheduler.MultiCoreScheduler.Enqueue` | kernel/src/sched.rs:267-297 | the loops over the arrays refine the step that `SchedulerLaws.EnqueueExactly` characterises |
| `Scheduler.MultiCoreScheduler.EnqueueOnCpu` | kernel/src/sched.rs:299-317 | refines the value step, duplicates on any CPU included |
| `Scheduler.MultiCoreScheduler.Dequeue` | kernel/src/sched.rs:319-331 | refines the value step for queued and running tasks |
| `Scheduler.MultiCoreScheduler.Steal` | kernel/src/sched.rs:341-366 | the victim scan, removal and hand-over refine the value step, never reaching the failing `expect` |
| `Scheduler.MultiCoreScheduler.DispatchMode` | kernel/src/sched.rs:372-415 | refines the value step with and without stealing |
| `Scheduler.MultiCoreScheduler.Complete` | kernel/src/sched.rs:436-445 | refines the value step, the losing case included |
| `Scheduler.MultiCoreScheduler.BoundedHandoff` | kernel/src/sched.rs:417-434 | refines the value step: a running task only goes back to its queue, an idle CPU takes one task, never both in one handoff |
| `Block.InRangeReadsReachDriver` | kernel/src/block.rs:253-266 | inside the device the range gate never refuses, so only the driver can fail a read |
| `FatGeometry.AcceptedIsLegal` | kernel/src/fat32.rs:157-214 | an accepted boot sector gives a FAT that holds every cluster's entry and a data area inside volume and device, from which no later access strays |
| `FatGeometry.AcceptedIff` | kernel/src/fat32.rs:157-214 | a boot sector is accepted if and only if its fields are supported and its clusters, as many as fit behind the FAT copies, lie in volume and device with an entry for each; the geometry is then these very areas |
| `FatGeometry.CopiesAreNoClusters` | kernel/src/fat32.rs:157-221 | the first cluster starts where the last FAT copy ends, so no sector of any copy is in a cluster |
| `FatGeometry.EntryAddress` | kernel/src/fat32.rs:397-410 | a cluster's entry is the four bytes at four times its number from the start of the FAT |
| `FatGeometry.FatEntryInFirstCopy` | kernel/src/fat32.rs:397-405 | on every accepted volume the lookup for a valid cluster stays within the sectors of the first FAT copy |
| `FatGeometry.SectorInDataArea` | kernel/src/fat32.rs:216-221 | every sector of a valid cluster lies in the data area |
| `FatGeometry.LegalAccesses` | kernel/src/fat32.rs:157-221 | no FAT or data access of an accepted volume is refused by the block layer |
| `FatGeometry.ClustersAreDisjoint` | kernel/src/fat32.rs:216-221 | different clusters share no sector |
| `FatGeometry.Mount` | kernel/src/fat32.rs:319-373 | a volume without a partition table wins, else the first partition entry that is not skipped decides; the mounted volume is legal; what it finds on a formatted disk is `FatRoundTrip.MountWhole` and `MountPartition` |
| `FatVolume.BootParses` | kernel/src/fat32.rs:100-135 | the boot sector of any formatted volume parses to the fields it was written with |
| `FatVolume.FormattedIsFound` | kernel/src/fat32.rs:157-214 | a volume formatted anywhere on a disk is accepted there with its own geometry |
| `FatVolume.LinkIsRead` | kernel/src/fat32.rs:397-423 | the lookup of a cluster gives the link the formatter wrote for it, whatever its reserved bits; free and bad entries are refused |
| `FatVolume.SectorIsRead` | kernel/src/fat32.rs:216-221 | sector k of a cluster is the k-th 512 bytes written into it |
| `FatVolume.ContentIsRead` | kernel/src/fat32.rs:519-588 | the concatenated chain of a file is what was written into its clusters, in order |
| `FatVolume.ByteIsRead` | kernel/src/fat32.rs:519-588 | byte p of a file as the reader finds it is byte p of what was written |
| `FatRoundTrip.MountWhole` | kernel/src/fat32.rs:319-373 | mounting a disk formatted as one volume gives that volume |
| `FatRoundTrip.PartitionIsFound` | kernel/src/fat32.rs:46-66 | a FAT32 partition entry leads to the volume formatted at its start |
| `FatRoundTrip.MountPartition` | kernel/src/fat32.rs:319-373 | behind a partition table the first entry of a FAT32 kind is mounted, entries of other kinds before it skipped |
| `FatRoundTrip.EntryRoundTrip` | kernel/src/fat32.rs:234-292 | a directory entry written with a short name is read back as its name, kind, first cluster and size |
| `FatRoundTrip.SkippedIff` | kernel/src/fat32.rs:234-292 | an entry is passed over if and only if it is free, deleted, nameless or a label or long-name piece; names shown are printable |
| `FatRoundTrip.NamesEqualIff` | kernel/src/fat32.rs:294-300 | names are the same up to the case of ASCII letters, and no further |
| `FatRoundTrip.SlotIsRead` | kernel/src/fat32.rs:425-457 | slot n of a directory is its n-th 32 bytes, wherever its clusters lie |
| `FatRoundTrip.LookupFindsWritten` | kernel/src/fat32.rs:425-474 | looking a name up in a written directory gives the first entry with that name, and nothing exactly when there is none |
| `FatPath.ResolvePath` | kernel/src/fat32.rs:476-507 | the loop over components refines following them one directory after another, errors included |
| `FatPath.ResolvesAsWritten` | kernel/src/fat32.rs:476-507 | from any directory of a formatted volume a path leads to the entry that was written for it, or fails as it must |
| `FatPath.ReadPath` | kernel/src/fat32.rs:519-610 | on any disk, reading a path is resolving it and reading the file it leads to |
| `FatPath.ReadWritten` | kernel/src/fat32.rs:476-610 | on a volume formatted anywhere, reading a path gives the slice of what was written into that file, up to its size |
| `FatPath.LoadFile` | kernel/src/fat32.rs:311-610 | from the raw disk: mounting it and reading a path gives that slice |
| `FatRead.ChainDataBytes` | kernel/src/fat32.rs:519-588 | the byte view used for reads is indexing into the concatenated chain |
| `FatRead.ReadIsSlice` | kernel/src/fat32.rs:519-588 | bytes that agree with the byte view are a slice of the concatenated chain |
| `FatRead.NothingBeyond` | kernel/src/fat32.rs:397-423 | past a missing link nothing is readable |
| `FatRead.SkipClusters` | kernel/src/fat32.rs:537-550 | skipping to an offset follows the chain and gives up past the cluster count |
| `FatRead.ReadFile` | kernel/src/fat32.rs:519-588 | Ok exactly when the wanted bytes are readable, with their number the smaller of buffer and remaining size and their values the chain's; the rest of the buffer is untouched |
| `FatDirectory.AcyclicIsShort` | kernel/src/fat32.rs:451-454 | pigeonhole: a chain that revisits no cluster is within the guard |
| `FatDirectory.GuardSparesAcyclic` | kernel/src/fat32.rs:536-587 | on a chain without a cycle a range is readable exactly when each of its bytes is there |
| `FatDirectory.ScanDirectory` | kernel/src/fat32.rs:425-457 | the scan ends on any FAT and visits exactly the records of the slot view, in order |
| `FatDirectory.SoundDirectoryScans` | kernel/src/fat32.rs:425-457 | a directory with a proper end and no cycle is scanned to that end, no slot lost to the guard |
| `FatDirectory.FindEntry` | kernel/src/fat32.rs:459-474 | the record found is the first with that name before any terminator; an error means damage was met first |
| `FrameAllocator.FullByte` | kernel/src/memory/frame_allocator.rs:104-127 | a byte is skipped exactly when its eight frames are all used |
| `FrameAllocator.SettingBit` | kernel/src/memory/frame_allocator.rs:189-193 | setting a bit takes exactly that frame from the free set |
| `FrameAllocator.ClearingBit` | kernel/src/memory/frame_allocator.rs:195-199 | clearing a bit adds exactly that frame to the free set |
| `FrameAllocator.FreeingStaysInsideIff` | kernel/src/memory/frame_allocator.rs:67-78 | freeing a region touches only frames inside it if and only if its start is aligned, it spans no frame boundary, or it is beyond the tracked frames |
| `FrameAllocator.FreeingSticksOut` | kernel/src/memory/frame_allocator.rs:67-78 | a region whose freeing hands out a frame that is partly outside it |
| `FrameAllocator.ReservingCovers` | kernel/src/memory/frame_allocator.rs:80-93 | reserving covers the frame of every tracked byte of the region |
| `FrameAllocator.FreedIff` | kernel/src/memory/frame_allocator.rs:67-78 | a frame is freed if and only if its end is past the start and not past the end of the region |
| `FrameAllocator.ReservedIff` | kernel/src/memory/frame_allocator.rs:80-93 | a frame is reserved if and only if it meets the region |
| `FrameAllocator.FrameLimitIff` | kernel/src/memory/frame_allocator.rs:104-107 | a frame is below the limit if and only if it lies below it wholly |
| `FrameAllocator.BitmapFrameAllocator.MarkRegionFree` | kernel/src/memory/frame_allocator.rs:67-78 | the free set grows by the region's frames and the counter equals its size |
| `FrameAllocator.BitmapFrameAllocator.MarkRegionUsed` | kernel/src/memory/frame_allocator.rs:80-93 | the free set shrinks by the region's frames and the counter equals its size |
| `FrameAllocator.BitmapFrameAllocator.AllocateBelow` | kernel/src/memory/frame_allocator.rs:104-127 | the lowest free frame below the limit, or none exactly when there is none, as a linear scan finds |
| `FrameAllocator.BitmapFrameAllocator.Allocate` | kernel/src/memory/frame_allocator.rs:95-102 | the lowest free frame of all |
| `FrameAllocator.BitmapFrameAllocator.AllocateContiguousBelow` | kernel/src/memory/frame_allocator.rs:129-161 | the lowest aligned free run below the limit, or none exactly when there is none or the request is malformed |
| `FrameAllocator.BitmapFrameAllocator.Deallocate` | kernel/src/memory/frame_allocator.rs:163-170 | a tracked frame becomes free, twice is as good as once, and untracked addresses are ignored |
| `FrameAllocator.StepPartitions` | kernel/src/memory/frame_allocator.rs:95-170 | one call keeps free and live frames a partition and grants nothing live |
| `FrameAllocator.LiveNeverOverlaps` | kernel/src/memory/frame_allocator.rs:95-170 | over every history a grant never overlaps a live allocation |
| `Path.SplitPathComponents` | kernel/src/ramfs.rs:162-175 | a path's components are its parent's followed by its last name, however many slashes it has |
| `Path.ComponentsAreNames` | kernel/src/ramfs.rs:123-160 | no component is empty or contains a slash |
| `Path.SpelledComponents` | kernel/src/ramfs.rs:123-160 | names joined with slashes are the components of that path |
| `RamFsTree.PathIsUnique` | kernel/src/ramfs.rs:123-160 | two component lists that resolve to the same inode are equal |
| `RamFsTree.EveryNodeHasPath` | kernel/src/ramfs.rs:123-160 | every used inode is reached by some path |
| `RamFsTree.AttachKeepsTree` | kernel/src/ramfs.rs:230-256 | linking a fresh inode keeps the tree if and only if no sibling has the stored name |
| `RamFsTree.DetachKeepsTree` | kernel/src/ramfs.rs:278-310 | unlinking a leaf keeps the tree |
| `RamFsSafety.CreateKeepsTreeIff` | kernel/src/ramfs.rs:230-256 | a successful create keeps the tree if and only if the name cut to 64 is not a sibling's |
| `RamFsSafety.CreateKeeps` | kernel/src/ramfs.rs:230-256 | a new path resolves to a fresh empty inode exactly when its name fits 64; a refusal changes nothing |
| `RamFsSafety.CreateFrame` | kernel/src/ramfs.rs:230-256 | every path not through the new one resolves to the same inode with the same contents |
| `RamFsSafety.LongNameIsLost` | kernel/src/ramfs.rs:68-76 | an inode created under a longer name is not found by that name |
| `RamFsSafety.LongNameCollides` | kernel/src/ramfs.rs:230-256 | below the root, creating a name that continues an existing 64-character one succeeds and breaks the tree |
| `RamFsSafety.RemoveKeepsTreeIff` | kernel/src/ramfs.rs:278-310 | remove keeps the tree if and only if it does not remove an empty root by a path of slashes |
| `RamFsSafety.DoubleSlashRemovesRoot` | kernel/src/ramfs.rs:278-310 | removing "//" from a new filesystem removes its root |
| `RamFsSafety.RemoveFrame` | kernel/src/ramfs.rs:278-310 | the removed path is gone and every path not through it is as before |
| `RamFsSafety.WriteKeepsTree` | kernel/src/ramfs.rs:213-228 | writing changes no path |
| `RamFsSafety.ReadAfterWrite` | kernel/src/ramfs.rs:198-228 | what was written is read back at its offset, and no other file reads differently; every other read is `RamFsLaws.WriteLaw` |
| `RamFsSafety.EveryRunIsATree` | kernel/src/ramfs.rs:92-310 | after every run with names that fit and no removal by slashes, links agree, each inode is linked once, there is no cycle and the count is right |
| `RamFsSafety.EveryRunIsATreeIff` | kernel/src/ramfs.rs:92-310 | the filesystem is a tree at every moment of a run if and only if no step creates, in a directory with room, a name over 64 that starts with a sibling's 64 characters, or removes an empty root by slashes |
| `RamFsSafety.LongCreateIff` | kernel/src/ramfs.rs:230-256 | creating a name over 64 succeeds exactly when its parent is a directory with room and a slot is free: no existing name stops it |
| `RamFsSafety.TwoCreatesBreakTheTree` | kernel/src/ramfs.rs:230-256 | from boot, two creates of names that agree in their first 64 characters break the tree |
| `RamFsLaws.ReadIsView` | kernel/src/ramfs.rs:198-211 | any read of any path is the slice of what the path holds; missing paths and directories are refused |
| `RamFsLaws.CreateOkIff` | kernel/src/ramfs.rs:230-256 | create succeeds if and only if nothing is at the path and its parent is a directory with room; each refusal names its reason |
| `RamFsLaws.CreateLaw` | kernel/src/ramfs.rs:230-256 | afterwards the new path holds an empty file or directory and every other path what it held |
| `RamFsLaws.TargetIsPath` | kernel/src/ramfs.rs:162-175 | a new entry whose name fits 64 is found at the path it was created with |
| `RamFsLaws.RemoveOkIff` | kernel/src/ramfs.rs:278-310 | remove succeeds if and only if the path is not spelled as the root and holds a file or an empty directory; each refusal names its reason |
| `RamFsLaws.RemoveLaw` | kernel/src/ramfs.rs:278-310 | afterwards the path holds nothing and every other path what it held |
| `RamFsLaws.WriteOkIff` | kernel/src/ramfs.rs:213-228 | write succeeds if and only if the path holds a file and the bytes end by 4096, writing them all; each refusal names its reason |
| `RamFsLaws.WriteLaw` | kernel/src/ramfs.rs:213-228 | afterwards the file holds its old bytes, zeros up to the offset if it was shorter, and the new bytes over them; every other path holds what it held |
| `RamFsLaws.EveryRunRefines` | kernel/src/ramfs.rs:92-310 | over every run that stays a tree, what each path holds is what a map from paths to contents says |
| `RamFs.RamFs.ResolvePath` | kernel/src/ramfs.rs:123-160 | the loop over components refines the recursive walk, errors included |
| `RamFs.RamFs.Create` | kernel/src/ramfs.rs:230-256 | the inode array changes as the value step says |
| `RamFs.RamFs.Remove` | kernel/src/ramfs.rs:278-310 | the inode array changes as the value step says, child list closed up |
| `RamFs.RamFs.Write` | kernel/src/ramfs.rs:213-228 | the file's bytes and length change as the step that `RamFsLaws.WriteOkIff` and `WriteLaw` characterise |
| `RamFs.RamFs.Read` | kernel/src/ramfs.rs:198-211 | the buffer's beginning becomes the file's bytes at the offset and its rest is untouched, or nothing changes |
| `PciTopology.ScanStep` | kernel/src/pci.rs:1558-1619 | scanning one bus keeps the worklist duplicate-free, reachable, and closed up to the cursor |
| `PciTopology.ReadDeviceIff` | kernel/src/pci.rs:1497-1542 | a function is read as a record if and only if its vendor bytes are not all ones and every field is the header byte it names |
| `PciTopology.OrderIsBreadthFirst` | kernel/src/pci.rs:1544-1619 | buses are scanned breadth first: each is found from the earliest scanned bus that leads to it, in that order |
| `PciTopology.ScansExactlyReachable` | kernel/src/pci.rs:1544-1619 | the buses scanned are exactly those reachable from bus 0 over the bridges and root functions that header bytes describe, each once, within 256 slots |
| `PciTopology.RecordsExactlyPresent` | kernel/src/pci.rs:1497-1619 | a record is in the full inventory exactly when its bus is reachable, its function is present by its header bytes, and its fields are those bytes; once each, in scan order |
| `PciWalk.PciInventory.Push` | kernel/src/pci.rs:989-996 | the inventory keeps the first 256 functions and flags any more |
| `PciWalk.EnqueueBus` | kernel/src/pci.rs:1544-1556 | the array worklist refines the duplicate-free list; the full guard drops no bus |
| `PciWalk.ScanDevice` | kernel/src/pci.rs:1567-1612 | function 0 gates the slot, and functions 1 to 7 are probed only when it is multifunction |
| `PciWalk.Enumerate` | kernel/src/pci.rs:1558-1619 | the whole walk leaves the inventory and bus count that `PciTopology` characterises by header bytes |
| `Ecam.ParseMcfg` | kernel/src/pci.rs:169-231 | accepts exactly the checksummed tables of one to eight valid, pairwise disjoint regions, and lists them in order |
| `Ecam.ParseWritten` | kernel/src/pci.rs:169-231 | a table written for disjoint regions parses to those regions |
| `Ecam.RegionFor` | kernel/src/pci.rs:157-161 | the region found covers the bus, and none is found only when none does |
| `Ecam.AddressInRegion` | kernel/src/pci.rs:113-128 | no partial sum overflows and the whole register lies in its region |
| `Ecam.AddressDefinedIff` | kernel/src/pci.rs:157-167 | a register has an address if and only if some region covers its bus |
| `Ecam.WindowsApart` | kernel/src/pci.rs:205-227 | the windows of different regions do not meet |
| `Ecam.AddressesAreInjective` | kernel/src/pci.rs:113-167 | different registers have different addresses, across regions too |
| `Msi.PublishedBits` | kernel/src/pci/interrupts.rs:28-40 | the final control value enables, unmasks or counts one vector, and keeps every unrelated bit |
| `Msi.DisabledKeepsBits` | kernel/src/pci/interrupts.rs:28-35 | disabling keeps every unrelated bit |
| `InterruptRegisters.InterruptIo.CheckedWrite` | kernel/src/pci/interrupts.rs:42-46 | true exactly when the device kept the value sent; no other register and no word outside the entry changes |
| `InterruptRegisters.OnlyRegisterChanges` | kernel/src/pci.rs:1678-1758 | writing the words of one register of an entry changes no other register and nothing outside the entry |
| `InterruptRegisters.FaultsAreLost` | kernel/src/pci.rs:1678-1758 | a fault seen on readback is a write that the device did not keep, never one cut by the register's width |
| `Msi.Program` | kernel/src/pci/interrupts.rs:51-107 | on any write faults: payload is written only while disabled and masked; Ok iff no fault, with the exact message live; ReadbackFailed means one fault, rolled back to quiet with the old payload; RollbackFailed takes two faults |
| `Capabilities.WalkCapabilities` | kernel/src/pci.rs:466-505 | on any contents the walk stops, accepting exactly a missing list or one that ends properly within sixteen entries, and lists its entries |
| `Capabilities.ListedIffChained` | kernel/src/pci.rs:466-505 | a list is accepted with these entries if and only if they are chained in it one to the next down to a zero pointer |
| `Capabilities.MsiDecodes` | kernel/src/pci.rs:525-557 | a control word composed of the MSI fields decodes to them, and is refused exactly when the entry does not fit |
| `Capabilities.MsixDecodes` | kernel/src/pci.rs:559-597 | words composed of the MSI-X fields decode to them |
| `Capabilities.CycleNeverEnds` | kernel/src/pci.rs:483-486 | a chain that comes back to an entry has no end, so refusing it loses nothing |
| `Capabilities.EntryAddress` | kernel/src/pci/interrupts.rs:112-152 | accepted exactly when table and pending bits lie aligned and apart in their memory registers; then every byte of the table is inside the mapping |
| `MsiArming.ApicMessage` | kernel/src/pci.rs:599-607 | exactly the sixteen device vectors have a message |
| `MsiArming.ApicMessageExactly` | kernel/src/pci.rs:599-607 | the address is 0xFEE on top with the destination in bits 12 to 19 and nothing else; the data is the vector |
| `MsiArming.LegalIff` | kernel/src/pci.rs:695-715 | a state moves exactly while owned and not failed, to another state that is neither free nor a reservation |
| `MsiArming.VectorRegistry.Reserve` | kernel/src/pci.rs:675-693 | a free vector gets this owner; an owned one is never taken |
| `MsiArming.VectorRegistry.Transition` | kernel/src/pci.rs:695-715 | the owner's state moves along a legal edge only |
| `MsiArming.VectorRegistry.ReleaseFailed` | kernel/src/pci.rs:719-727 | only a failed vector is given back |
| `MsiArming.ArmedIsNeverRecycled` | kernel/src/pci.rs:695-727 | through any run of registry calls an armed vector stays with its device until it is declared failed |
| `MsiArming.MsixSparesMsi` | kernel/src/pci.rs:1808-1832 | programming MSI-X never changes whether MSI is enabled |
| `MsiArming.MsixAfterLive` | kernel/src/pci.rs:1833-1848 | after MSI goes live a disabled MSI-X reads as enabled exactly when its entry starts at the MSI address register |
| `MsiArming.MsixAfterQuiet` | kernel/src/pci.rs:1833-1848 | rolling MSI back leaves the MSI-X enable bit as it was, even on overlapping entries |
| `ArmDevice.TryMode` | kernel/src/pci.rs:1851-1868 | one mode ends armed and live, or failed and owned, or with registry as before and the mechanism quiet; an owned vector means that nothing is touched; the unwraps hold |
| `ArmDevice.ArmInterrupts` | kernel/src/pci.rs:1793-1870 | Ok means exactly the message live in that mode and the vector armed; an enabled mechanism or an owned vector means registers and registry untouched; any other error but RollbackFailed leaves the registry as it was and both mechanisms off; RollbackFailed keeps the vector failed and tries nothing more; and the result is the one that the writes the device kept or lost lead to |
| `ArmDevice.HonestDeviceArms` | kernel/src/pci.rs:1793-1870 | with a free vector and both mechanisms off, a device that keeps every write ends with Ok: MSI-X if it can be used, else MSI if offered, else the error of the refused entry |
| `ArmDevice.ErrorsHaveReasons` | kernel/src/pci.rs:1793-1870 | ReadbackFailed takes a write the device lost, RollbackFailed two of them, and any other error no usable mechanism |
| `ArmDevice.BothEnabledIff` | kernel/src/pci.rs:1793-1870 | a successful arming leaves both mechanisms enabled if and only if it armed MSI and MSI-X starts at the MSI address; on separate entries no outcome does, failed rollbacks included |
| `ArmDevice.Arm` | kernel/src/pci.rs:1764-1870 | from configuration space on, on any contents: an unknown device or a malformed list or entry is refused with nothing touched, else the outcome above holds for the decoded mechanisms, so that `HonestDeviceArms` and `ErrorsHaveReasons` apply |
| `ArmDevice.SeparateIff` | kernel/src/pci.rs:525-557 | decoded entries are separate exactly when MSI-X starts at none of the MSI address, its upper half and its mask word |
| `ArmDevice.DisjointIsSeparate` | kernel/src/pci.rs:525-557 | entries that do not overlap are separate |
| `ArmDevice.OverlapIsAccepted` | kernel/src/pci.rs:466-557 | a list with MSI at 0x40 and MSI-X at 0x44 is walked and decoded, so the two can meet |
| `UserRange.NewWithLimit` | kernel/src/syscall.rs:586-625 | accepted if and only if the named bytes are at or below the limit, not a null buffer and not too long; each error names a check that fails |
| `UserRange.PagesAreTouched` | kernel/src/syscall.rs:650-656 | a page is counted exactly when some byte of the range lies in it |
| `UserRange.ValidatePages` | kernel/src/syscall.rs:670-695 | success exactly when every byte's page permits the access; a failure names the lowest refusing page and its reason |
| `PageWalk.MeetAllows` | kernel/src/memory/paging.rs:286-296 | intersecting flag words allows an access exactly when both words do |
| `PageWalk.IndicesAreDigits` | kernel/src/memory/paging.rs:224-284 | the four table indices and the offset are the digits of the address |
| `PageWalk.EffectiveDecides` | kernel/src/memory/paging.rs:224-284 | the unrolled walk with intersected flags is the level-by-level one |
| `PageWalk.EffectiveIsWalk` | kernel/src/memory/paging.rs:224-318 | the computed permissions allow an access exactly when the processor's walk over physical frames ends at a leaf with every entry granting it and the direct map reaches each table on it, for any byte of the page |
| `PageWalk.OneWalk` | kernel/src/memory/paging.rs:224-284 | an address has at most one walk |
| `AddressSpace.StepKeepsInv` | kernel/src/process.rs:116-144 | each step keeps: held leases are current, and the pin count is their number |
| `Process.ProcessTable.Create` | kernel/src/process.rs:246-291 | the scan for a free slot gives slot n pid n + 1, nothing pending or blocked, and a fresh address space |
| `Process.ProcessTable.Find` | kernel/src/process.rs:324-331 | the scan for a pid ends at the slot the pid names, or nowhere when no process has it |
| `Process.ProcessTable.PinAddressSpace` | kernel/src/process.rs:347-350 | in the slot array, the process's pin count rises and its lease carries the current generation, every other space and all signal state untouched |
| `Process.ProcessTable.ReleasePin` | kernel/src/process.rs:353-359 | in the slot array, a current lease lowers that process's count only; a stale one changes nothing |
| `Process.ProcessTable.BumpGeneration` | kernel/src/process.rs:363-366 | in the slot array, the generation rises only for a process without pins |
| `Process.ProcessTable.PinAndValidate` | kernel/src/memory/paging.rs:205-219 | with a pin to spare, success exactly when every byte passes the processor's walk and the direct map reaches its tables; every failure leaves all spaces as they were and names the first refused page |
| `AddressSpace.HeldPinsProtect` | kernel/src/process.rs:344-366 | after any run a held lease releases successfully, and a mapping change is Busy exactly when a lease of that process is held |
| `AddressSpace.PinnableIff` | kernel/src/process.rs:116-125 | after any run a pin is granted exactly to a process with fewer than 2^32 - 1 leases held |
| `AddressSpace.ChangeableIff` | kernel/src/process.rs:135-144 | after any run a mapping change is allowed exactly when no lease of the process is held and the generation is not the last, and raises that generation alone |
| `AddressSpace.HeldGenerationIsStable` | kernel/src/process.rs:63-144 | however a run goes on, the generation a lease names stays current until that lease is given back |
| `UsbWire.Read10Fields` | kernel/src/usb_storage.rs:99-108 | the command is READ(10) with nothing in its other bytes, and a drive decoding it sees the address and count asked for |
| `UsbWire.CbwRoundTrip` | kernel/src/usb_storage.rs:145-156 | a device decoding the command wrapper gets the wrapper that was built |
| `UsbWire.CswAcceptedIff` | kernel/src/usb_storage.rs:172-197 | a status is accepted if and only if it is the wrapper a device writes for this tag with a residue within the transfer |
| `UsbWire.ParseCapacity` | kernel/src/usb_storage.rs:253-267 | accepted drives have 512-byte blocks, all with 32-bit addresses |
| `UsbStorage.OneWrapper` | kernel/src/usb_storage.rs:354-382 | each command puts exactly one wrapper on the wire, first, and it decodes to that command |
| `UsbStorage.ResetIffBroken` | kernel/src/usb_storage.rs:347-429 | recovery runs exactly when the command did not end cleanly, once, as its last operation |
| `UsbStorage.DoneMeansAnswered` | kernel/src/usb_storage.rs:399-424 | a command reported done was answered with its own tag, passed, and bytes plus residue equal the length |
| `UsbStorage.NothingAfterFailedReset` | kernel/src/usb_storage.rs:347-366 | on the wire of any run a failed reset is the last operation ever |
| `UsbStorage.MassStorage.Recover` | kernel/src/usb_storage.rs:347-352 | one reset ends a broken exchange, and a failed one retires the device |
| `UsbStorage.MassStorage.Execute` | kernel/src/usb_storage.rs:354-429 | refused without I/O exactly when unavailable or improper, else one exchange: its data and count when clean, and otherwise the error of the phase that broke |
| `UsbStorage.MassStorage.ReadTen` | kernel/src/usb_storage.rs:457-471 | success exactly when the device was available and the READ(10) passed with every byte, which are then in the bounce buffer; a REQUEST SENSE follows exactly a failed command on a live device |
| `UsbStorage.MassStorage.ReadBlocks` | kernel/src/usb_storage.rs:485-572 | refused without I/O exactly on a bad length or a range past the end; success is READ(10)s tiling the request in order with their data in the output; a failure comes from an unavailable device or right after the first READ(10) that did not deliver; 32-bit addresses never overflow |
| `UsbStorage.TiledReadsDisk` | kernel/src/usb_storage.rs:545-572 | on a drive that answers the addresses it decodes, the output is the disk's content from the first block on |
| `SessionCodec.PacketRoundTripIff` | kernel/src/brane_session.rs:269-294 | before any suffix a packet parses back with its exact length if and only if its payload is under 65536 bytes |
| `SessionCodec.PacketNeedsAllBytes` | kernel/src/brane_session.rs:279-294 | no proper beginning of a packet parses |
| `SessionCodec.ParsedReencodes` | kernel/src/brane_session.rs:269-294 | re-encoding a parsed packet gives the bytes consumed, reserved byte zeroed |
| `SessionCodec.StreamRoundTrip` | kernel/src/brane_session.rs:269-294 | packets sent back to back decode to themselves with nothing left over |
| `SessionCodec.StreamIsUnique` | kernel/src/brane_session.rs:269-294 | a byte stream encodes at most one sequence of packets |
| `SessionCodec.OfferRoundTrip` | kernel/src/brane_session.rs:60-110 | an encoded offer found anywhere in a buffer parses back with the position after it |
| `SessionCodec.NegotiationRoundTrip` | kernel/src/brane_session.rs:135-228 | a negotiation within the byte-sized fields decodes to itself |
| `SessionCodec.NegotiationRoundTripsIff` | kernel/src/brane_session.rs:135-228 | a negotiation of text names survives the wire if and only if both counts and all names fit one byte |
| `SessionCodec.NegotiationToBytes` | kernel/src/brane_session.rs:135-162 | the growing buffer ends as the specified encoding |
| `SessionCodec.NegotiationFromBytes` | kernel/src/brane_session.rs:164-228 | the advancing offset decodes exactly what the recursive parser does, failures included |
| `Session.EngineIsPresent` | kernel/src/brane_session.rs:350-417 | in every reachable state past the handshake the engine is present, so no call reports it missing |
| `Session.CounterIsFreshIff` | kernel/src/brane_session.rs:515-531 | one installation repeats no 12-byte nonce if and only if it seals at most 2^64 times |
| `Session.LogIsFreshIff` | kernel/src/brane_session.rs:370-417 | over any installations no key and nonce are used twice if and only if those that sealed have different keys and none sealed more than 2^64 times |
| `Session.SealsAreFreshIff` | kernel/src/brane_session.rs:350-561 | for any runs of both ends, no key and nonce seal two messages exactly under that condition on all installations of the two together |
| `Session.SecondHandshakeRepeats` | kernel/src/brane_session.rs:350-417 | a second handshake with the same answer seals with the same key and nonce zero again |
| `Session.BothEndsRepeat` | kernel/src/brane_session.rs:403-407 | two ends that agreed on a key and each sent one message used that key with nonce zero twice |
| `Session.ExchangeEstablishes` | kernel/src/brane_session.rs:421-512 | the offer one side builds establishes the other with exactly that offer as its view of the peer |
| `SessionLaws.RunShows` | kernel/src/brane_session.rs:350-594 | every run has come exactly as far as its operations show, which `OneProgress` makes unique |
| `SessionLaws.StateIff` | kernel/src/brane_session.rs:350-594 | after any run the state, the key and the peer's negotiation are those that the operations name: the last handshake begun, its first long enough answer, and the first negotiation after it that parses |
| `SessionLaws.EstablishedIff` | kernel/src/brane_session.rs:350-594 | a session is established if and only if the last handshake begun, with no close after it, was answered and then agreed on |
| `Tunnel.DeliveredIffInPlace` | kernel/src/brane_session.rs:534-590 | among any payloads at all, the j-th packet is accepted if and only if it is processed j-th, and yields message j |
| `Tunnel.FifoDelivers` | kernel/src/brane_session.rs:534-590 | over an in-order channel the receiver's plaintexts are the beginning of the sender's |
| `Tunnel.AcceptedIffInPlace` | kernel/src/brane_session.rs:565-590 | over any channel carrying packets of any installations of the key, a payload is accepted exactly when one of them sent it in that place, and yields its message |
| `Tunnel.ChannelIsSafeIff` | kernel/src/brane_session.rs:565-590 | only the messages of the peer's current installation are accepted if and only if no packet of another installation of the key, own or earlier, comes in the place it was sent in |
| `Tunnel.ReflectionIsAccepted` | kernel/src/brane_session.rs:403-407 | an end that gets its own packets back in order accepts them all |
| `Tunnel.ReplayIsAccepted` | kernel/src/brane_session.rs:370-417 | after a second handshake with the same answer a packet accepted before is accepted again |
| `Tunnel.InsertionDesynchronises` | kernel/src/brane_session.rs:565-590 | one foreign payload makes the receiver refuse every later packet |
| `Tunnel.TunnelRoundTripIff` | kernel/src/brane_session.rs:269-294 | messages sealed, framed back to back, decoded and opened are the messages again if and only if every ciphertext is under 65536 bytes |
| `Tunnel.IdealExists` | kernel/src/crypto.rs:135-150 | the laws assumed of the cipher are consistent: some cipher has them |
| `Session.BraneSession.GetTxNonce` | kernel/src/brane_session.rs:515-522 | the counter's bytes copied into a zeroed array are its 12-byte nonce, and the counter moves on with wrap-around |
| `Session.BraneSession.BuildHandshakeInit` | kernel/src/brane_session.rs:350-367 | from any state the session waits for an answer and sends its public key; its installations and counters stay |
| `Session.BraneSession.CloseSession` | kernel/src/brane_session.rs:592-598 | from any state the session is closed and sends an empty disconnect |
| `Session.BraneSession.ProcessHandshakeResponse` | kernel/src/brane_session.rs:370-417 | exactly a long enough answer to an outstanding handshake starts a new installation, whose counters are zero |
| `Session.BraneSession.EncryptPayload` | kernel/src/brane_session.rs:534-561 | the message is sealed under the last installed key with its own number among that key's seals as nonce, used up even if sealing fails; the engine is never missing |
| `Session.BraneSession.DecryptPayload` | kernel/src/brane_session.rs:565-590 | the payload is opened with its number since the key was installed as nonce, used up even if opening fails; the engine is never missing |
| `Session.BraneSession.BuildCapabilityExchange` | kernel/src/brane_session.rs:421-464 | the packet carries the encoding of the remembered local offer |
| `Session.BraneSession.ProcessCapabilityExchange` | kernel/src/brane_session.rs:468-512 | only a payload that parses establishes the session |
| `SignalMask.Combined` | kernel/src/syscall.rs:1304-1320 | or and and-not of 64-bit masks are union and difference of the signals whose bits are set |
| `SignalMask.OwnBit` | kernel/src/signal.rs:16-27 | each signal has a bit of its own |
| `SignalLaws.SendExactly` | kernel/src/signal.rs:97-109 | accepted exactly by a process that exists and is not terminated; that signal alone becomes pending there |
| `SignalLaws.SetActionExactly` | kernel/src/signal.rs:112-132 | accepted exactly for a catchable signal of an existing process; that one action changes |
| `SignalLaws.MaskExactly` | kernel/src/syscall.rs:1293-1326 | signal by signal, what is blocked after each way of changing the mask; kill and stop never are |
| `SignalLaws.DeliverExactly` | kernel/src/signal.rs:166-215 | the first signal in priority that is deliverable and not harmless acts, by its handler or by ending the process with 128 plus its number; it and those deliverable before it are cleared, nothing else changes |
| `SignalLaws.DeliverNothing` | kernel/src/signal.rs:166-215 | with only harmless signals deliverable, these are cleared and nothing else changes |
| `SignalLaws.SentIsDelivered` | kernel/src/signal.rs:97-215 | a caught signal sent to a process with nothing pending is delivered to its handler, and the process is as before |
| `SignalManager.Manager.Send` | kernel/src/signal.rs:97-109 | setting the bit in the slot's pending word adds exactly that signal, unless the process is missing or terminated |
| `SignalManager.Manager.SetAction` | kernel/src/signal.rs:112-132 | one entry of the slot's row changes, never for kill or stop |
| `SignalManager.Manager.Pending` | kernel/src/signal.rs:146-153 | the word computed holds exactly the deliverable signals |
| `SignalManager.Manager.SigAction` | kernel/src/syscall.rs:1245-1271 | accepted exactly when the argument's low byte is a catchable signal and the process exists, and then only that signal's action changes |
| `SignalManager.Manager.SigProcMask` | kernel/src/syscall.rs:1293-1326 | the blocked word changes as asked with the kill and stop bits cleared again, and the whole word before is returned |
| `SignalManager.Manager.DeliverPending` | kernel/src/signal.rs:166-215 | the priority loop over words and tables refines: the first deliverable signal that is not harmless decides, clearing itself and those before it |
| `Signals.KillAndStopStayDefault` | kernel/src/signal.rs:112-132 | in every reachable state kill and stop are unblocked and have the default action in every process |
| `Signals.PendingKillTerminates` | kernel/src/signal.rs:166-215 | after any run a process with a pending kill is terminated with code 137 by its next delivery, and nobody else changes |
| `Signals.HandlerWasPending` | kernel/src/signal.rs:166-215 | a returned handler's signal was pending, unblocked, handled by that address and is now cleared; all ahead of it were harmless |
| `Signals.DeliveryIsContained` | kernel/src/signal.rs:146-215 | delivery removes only deliverable signals, keeps blocked ones pending, and touches no other process |

## Left out

- FAT32 `readdir` and `stat`, long file names, and cutting a path into components: paths are sequences of components.
- LookupFindsWritten: the written directory holds short entries only; what the reader does with deleted entries, labels and long-name pieces between them is `SkippedIff` and `ScanDirectory`.
- MountPartition: the first sector must not itself describe 512-byte sectors, since the kernel tries it as a volume first.
- FAT32 short-name case folding is modelled on bytes, not on Unicode.
- RamFS paths are sequences of ASCII characters; the overflow of `offset + data.len()` on machine words is not modelled.
- RamFS `readdir` and `stat`: they only read what the tree theorems describe.
- PCI configuration space is taken to stay the same during the walk; measuring and mapping base address registers are not part of this model.
- BothEnabledIff: on entries that are not separate it says nothing about a failed rollback, which may leave any value in the shared word.
- MSI reads are taken to be faithful; a device that lies on readback is outside the model.
- Process names, parents, capabilities, memory regions and counters of the process control block.
- Page-table contents are fixed during one validation; mapping changes are the generation steps.
- USB device initialisation (INQUIRY, TEST UNIT READY, capacity probing) and the xHCI driver: the transport is arbitrary instead.
- TiledReadsDisk: assumes the drive answers the address it decodes, since the transport alone promises nothing.
- Key agreement, ChaCha20-Poly1305 and UTF-8 repair are parameters; the tunnel theorems assume an ideal cipher, which `IdealExists` shows to be a consistent assumption.
- NegotiationRoundTripsIff: assumes that repairing a cut-off beginning of a text adds at most two bytes, which UTF-8 replacement satisfies.
- Session timestamps and log output; the saved user context of a signal handler and `sigreturn`.
- The default actions of stop and continue: the kernel ignores both, and so does the model.
- Spinlocks and interrupt masking: each locked method is one atomic step.
- Statistics counters, snapshots and name formatting throughout.
- Inter-process message and audit ring buffers, the capability table, ACPI tables other than MCFG, the network stack, the shell and boot.
