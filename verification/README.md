# QiuOS, verified

QiuOS is a small microkernel: processes, a file system, a memory manager and a
terminal driver that talk by synchronous messages.  This project models its
state machines in Dafny and proves what holds in every state they reach.

| files | what they model |
|---|---|
| `IpcSpec`, `IpcInvariant`, `IpcRuns`, `IpcAnswers`, `Ipc` | message passing: an abstract machine, its invariants, whole runs, what becomes of receives and interrupts, and the class `Kernel`, which does the same on process records and their linked queues |
| `SchedulerSpec`, `SchedulerEpochs`, `Scheduler` | `schedule` and `clock_handler`: time slices and epochs, and that nobody starves |
| `Bits`, `Disk`, `SectorMap` | the device as sectors of bytes, and the loops over both bitmaps |
| `Extents` | who owns which bits, over any creates and unlinks |
| `InodeDisk` | inode records inside sectors |
| `FsCounts`, `FsSpec`, `FsInvariant`, `FsSteps`, `FsRuns`, `FsEffects`, `FsRecords`, `FsCalls`, `FsCases` | the file system as one state machine: inode cache, descriptors, open-file tables, records and bitmaps; what each call does and what it leaves alone; `FsCases` has the runs in which a reference is lost or a shared file is closed |
| `FileServer`, `MkFs` | the same over tables and device: the class `Server`, and `mkfs` |
| `TransferSpec`, `ReadWrite`, `FileBytes` | `do_rw`: what its chunk loop moves and where, the loop itself, and what becomes of the bytes of files |
| `MmSpec`, `MmRuns`, `MemoryManager` | fork, exit, wait and the adoption of orphans |
| `LineDiscipline`, `Tty`, `TtyProtocol` | the terminal: line editing, the ring buffer, suspend and resume |
| `Untar` | the archive reader |

A method of a class states its whole new state as a function of the old one;
the lemmas about that function then say what the code is for.  `dafny verify
dfyconfig.toml` checks everything.

What the code does not keep is stated as well, with the exact condition and a
run or an input where it fails:

- two extents overlap: `Extents.CrowdedCreate`, reached in `Extents.OneFileTooMany`;
- unlink forgets a bit: `Extents.CreateThenUnlink`, `Extents.FirstFileKeepsItsLastBit`;
- the marks of mkfs: `SectorMap.InstallIsExact`, `SectorMap.InstallOnRootMap`;
- closing a shared file: `FsSteps.CloseKeepsCounts`, `FsCases.OpenForkClose`;
- an unlink that fails: `FsCases.FailedUnlinkIsForGood`, `FsCases.OpenUnlinkExit`;
- transfers that move too much: `TransferSpec.WriteIsExact`, `TransferSpec.WritingAllOfItWritesTwice`;
- reads that make a file grow: `TransferSpec.ReadGrowsFile`, `TransferSpec.ReadingAllOfItDoublesIt`;
- a wait that never ends: `MmRuns.WaitWithoutChildren`, `MmRuns.OneWaitTooMany`, `MmRuns.AnyNumberOfChildren`;
- file system and terminal send to each other: `TtyProtocol.HaltsExactly`,
  `TtyProtocol.NeverHaltsExactly`, `TtyProtocol.ShellsHalt`;
- a reader that is never answered: `TtyProtocol.LossExactly`,
  `TtyProtocol.NobodyIsLost`, `TtyProtocol.SecondReaderDisplaces`,
  `TtyProtocol.EmptyReadIsLost`.

## Model

| member | source | states |
|---|---|---|
| IpcRuns.ReachableStatesAreSafe | kernel/proc.c:67-139 | in every state that sends, receives and interrupts lead to, no path of blocked senders closes, each queue holds exactly the senders blocked on its owner, once, and nobody waits for a message that is queued or an interrupt that is noted |
| IpcInvariant.SendKeepsInv | kernel/proc.c:86-139 | a send keeps this, because the deadlock search refuses the one edge that could close a path |
| IpcInvariant.ReceiveKeepsInv | kernel/proc.c:146-246 | a receive from anybody, from one process or from the hardware keeps it |
| IpcInvariant.InterruptKeepsInv | kernel/proc.c:267-282 | a hardware interrupt keeps it |
| IpcInvariant.PathInsideChain | kernel/proc.c:67-79 | from one process, every path of blocked senders is a prefix of the one chain that ends |
| IpcInvariant.ReachesEnd | kernel/proc.c:67-79 | whoever is reached from a process is on its chain |
| IpcRuns.MessagesAreConserved | kernel/proc.c:97-139 | over any run, accepted sends are deliveries plus exactly one packet for each process blocked in a send |
| IpcRuns.MessagesAreConservedFromBoot | kernel/proc.c:97-139 | the same from the state at the start |
| IpcRuns.EveryMessageIsSigned | kernel/proc.c:248-264 | over any run, every message that was accepted, was delivered or is in flight carries the name of its sender and goes to another process |
| IpcRuns.DeliveryReachesTheBuffer | kernel/proc.c:100-113 | whenever a run delivers a message, its receiver is ready with exactly this message in its buffer, signed by its sender, who sends it in this call or was blocked sending it |
| IpcRuns.BoundedBypass | kernel/proc.c:173-224 | a queued sender only moves up, by one for each receive from anybody that takes a sender, until it is taken |
| IpcRuns.ServedInTurn | kernel/proc.c:173-224 | with k senders ahead, it is taken after at most k + 1 such receives |
| IpcAnswers.InterruptsAreKept | kernel/proc.c:154-169 | over any run, each interrupt of a process is told to it or noted, exactly once, unless it comes while one is noted |
| IpcAnswers.NoSignalInvented | kernel/proc.c:267-282 | from the start, a process is never told of more interrupts than it had |
| IpcAnswers.InterruptIsNotLost | kernel/proc.c:281 | after an interrupt and any run, its process has been told of it or it is noted still |
| IpcAnswers.NotedInterruptIsTaken | kernel/proc.c:154-169 | a noted interrupt answers the next receive from anybody or from the hardware, at once, with the source and the type of one, and is noted no more |
| IpcAnswers.InterruptWakes | kernel/proc.c:267-282 | an interrupt wakes exactly a process that waits for anybody or for the hardware; otherwise it is noted and nothing else changes |
| IpcAnswers.EarlyDiskInterrupt | kernel/hd.c:17 | from the start, an interrupt of the disk before its driver waits for it is not missed |
| IpcAnswers.ReceiveIsAnswered | kernel/proc.c:146-246 | over any run, the first thing that a receive gets is what it asked for, a message of the process it named or an interrupt, and it waits until then |
| IpcAnswers.OwnReceiveFails | kernel/proc.c:146-152 | a receive from oneself fails an assertion |
| IpcAnswers.RefusedExactly | kernel/proc.c:86-95 | a send is refused exactly if waiting for its receiver would close a circle of processes that wait for each other |
| IpcAnswers.StopsExactly | kernel/proc.c:86-95 | the machine stops exactly with such a send |
| Ipc.Kernel.Deadlock | kernel/proc.c:67-79 | ends, and finds a circle exactly if the sender is reachable from the destination |
| Ipc.Kernel.SendMsg | kernel/proc.c:86-139 | the process records after the call represent the abstract send, with its outcome; the assertions of both branches hold |
| Ipc.Kernel.Enqueue | kernel/proc.c:119-129 | the sender is linked in behind the tail of the queue |
| Ipc.Kernel.RecvMsg | kernel/proc.c:146-246 | the same for a receive, from anybody, from one process or from the hardware |
| Ipc.Kernel.TakeSender | kernel/proc.c:171-233 | a queued sender is taken: the assertions on both records hold, and the table represents the abstract step |
| Ipc.Kernel.FindSender | kernel/proc.c:194-203 | the search finds the process in the queue, and the one before it |
| Ipc.Kernel.Unlink | kernel/proc.c:215-224 | a sender is taken out at the head or in the middle |
| Ipc.Kernel.InfoTask | kernel/proc.c:267-282 | the same for an interrupt |
| Ipc.Kernel.SysSendrec | kernel/proc.c:248-264 | the source of a message is its sender; a bad argument changes nothing |
| Ipc.ListAppended | kernel/proc.c:119-129 | linking a record in at the tail turns the list of q into that of q and the new one |
| Ipc.ListWithout | kernel/proc.c:215-224 | bypassing record i turns it into that of q without i |
| Ipc.OtherQueuesFrame | kernel/proc.c:115-129 | the lists of other receivers share no record with it and stay |
| SchedulerSpec.BestIsFirstGreatest | kernel/proc.c:21-28 | a pass finds the first runnable process with the most ticks, or nobody has any |
| SchedulerSpec.CanScheduleInTwoPasses | kernel/proc.c:20-33 | schedule ends exactly if somebody can run now or after one refill |
| SchedulerSpec.WaitingIsPaidFor | kernel/clock.c:12-26 | while a process with ticks waits, nothing is refilled and each interrupt uses up a tick of somebody else |
| SchedulerSpec.NoStarvation | kernel/clock.c:12-26 | it is charged by the interrupt that follows as many as the others have positive ticks, and one more if the running process has none |
| SchedulerSpec.RunningHasTicks | kernel/clock.c:12-26 | that extra interrupt is not needed as long as somebody can run |
| SchedulerEpochs.RefillExactly | kernel/proc.c:20-33 | if nobody can run, every runnable process gets its priority as ticks and nothing else changes; otherwise the table stays |
| SchedulerEpochs.ClockExactly | kernel/clock.c:12-26 | an interrupt takes one tick from the running process, wakes the terminal task if a key was pressed, and then leaves things or schedules |
| SchedulerEpochs.BlockExactly | kernel/proc.c:52-62 | a process that blocks does not run, and nothing else changes but for a refill |
| SchedulerEpochs.UnblockExactly | kernel/proc.c:57-62 | one that wakes up is runnable, and nothing else changes |
| SchedulerEpochs.EpochIsFair | kernel/proc.c:20-33 | between two refills, with nobody blocking or waking up, every runnable process is charged exactly its priority |
| Scheduler.ProcTable.Schedule | kernel/proc.c:17-34 | the loop over passes and refills computes the specified choice, in two passes |
| Scheduler.ProcTable.ClockHandler | kernel/clock.c:12-26 | one interrupt, nested or not, is the specified step |
| SectorMap.AllocSmapBit | fs/open.c:36-64 | sets exactly the bits from the first clear one on, across bytes and sectors, and returns the sector whose bit that is; nothing else is written |
| SectorMap.AllocImapBit | fs/open.c:14-33 | sets exactly the first clear bit and returns its number, 0 for a full map |
| SectorMap.ClearExtent | fs/unlink.c:74-105 | clears exactly the bits of the extent, but for those in the byte that the walk misses when the extent starts in byte 256 of a sector of the map |
| SectorMap.ClearImapBit | fs/unlink.c:66-71 | clears exactly the bit of the inode |
| SectorMap.MarkInstall | fs/fs.c:135-184 | the three phases set 2048 bits from where they start, also into a new sector |
| SectorMap.InstallIsExact | fs/fs.c:146-152 | these are the extent itself exactly if its first byte was not full or it begins with that byte, or its last bits were set before |
| SectorMap.InstallOnRootMap | fs/fs.c:121-152 | on the map that mkfs has at this point: exactly if the extent begins behind the root directory's, at a byte, or at bit 0 or 1 |
| SectorMap.MarkRoot | fs/fs.c:121-132 | bit 0 and the bits of the root directory, all others clear |
| Extents.ExtentsStayDisjoint | fs/open.c:36-64 | after any creates and unlinks, each create made while a slot is to spare, the extents of all live files are pairwise disjoint |
| Extents.CreateTakesASlot | fs/open.c:42-57 | the first clear bit begins a slot of 2048 bits that nobody owns, and there is an inode to spare |
| Extents.UnlinkKeepsInv | fs/unlink.c:66-105 | unlink keeps whole slots whole and leaves its own free but for the bit it misses |
| Extents.CrowdedCreate | fs/open.c:36-64 | in every state of the invariant, one more create finds a clear bit and keeps the extents apart exactly if a slot is free, or the map is not full and cmd.tar is gone or begins where the slots end |
| Extents.OneFileTooMany | fs/open.c:36-64 | on a new file system, creates until every slot is taken lead there: the next one is safe exactly if the slots end where cmd.tar begins and the map goes on behind it |
| Extents.CreateThenUnlink | fs/unlink.c:73-105 | create and unlink restore the sector map exactly if the extent was clear but for the bits that are missed |
| Extents.SlotRoundTrip | fs/unlink.c:73-105 | even slots come back as they were, odd slots keep their last bit set |
| Extents.FirstFileKeepsItsLastBit | fs/unlink.c:73-105 | the first file of a new file system, unlinked again, leaves one bit of the sector map set that was clear, and nothing else |
| Extents.InodeRoundTrip | fs/unlink.c:66-71 | the inode map comes back as it was |
| Extents.CreateOnDisk | fs/open.c:323-324 | both allocations on the device are the abstract create; only the maps are written |
| Extents.UnlinkOnDisk | fs/unlink.c:66-105 | the loops of unlink on the device are the abstract unlink |
| Extents.MakeMaps | fs/fs.c:111-184 | mkfs leaves the maps of a file system with the root directory and cmd.tar |
| InodeDisk.RecordLocation | fs/open.c:379-382 | the sector of a record lies in the inode array, behind both maps and in front of the data; records do not overlap |
| InodeDisk.StoreRecord | fs/open.c:376-388 | writes the record of one inode; all others, both maps and the data stay |
| InodeDisk.LoadRecord | fs/open.c:358-365 | reads the record of the inode |
| InodeDisk.WordRoundTrip | include/fs.h:24-29 | a number below 2^32 survives its four bytes |
| InodeDisk.LittleEndian | include/fs.h:24-29 | the byte at the lowest address counts least |
| InodeDisk.RecordLayout | include/fs.h:24-29 | mode, size, first sector and sectors lie one after the other in the record |
| FsRuns.RunsAreSafe | fs/fs.c:252-326 | from any file system that is mounted, over any opens, closes, forks, exits, stats, transfers and unlinks: fd_cnt and i_cnt count the entries that reach them exactly, no two live slots hold one inode, every live slot equals its record on the device, records and bitmaps agree |
| FsRuns.MountKeeps | fs/fs.c:252-281 | mounting a device whose records and bitmaps agree establishes this |
| FsRuns.PerformKeeps | fs/fs.c:292-320 | every call keeps it |
| FsRuns.UnlinkSparesOpenFiles | fs/unlink.c:52-113 | unlink takes a file away exactly if it is regular and nobody uses it; every open file keeps its inode, its marks in both maps and its record |
| FsRuns.FailedUnlinkKeeps | fs/unlink.c:54-62 | an unlink that fails leaves one more reference to the inode, and nothing else |
| FsCases.FailedUnlinkIsForGood | fs/unlink.c:54-62 | if it failed because somebody had the file open, no later unlink of the file succeeds, whatever is called in between |
| FsCases.OpenUnlinkExit | fs/unlink.c:54-62 | from any mounted file system: open, unlink, exit; then no process has a file open and still no unlink succeeds |
| FsRuns.OpenFilesAreApart | fs/open.c:317-328 | open files with different inodes share no sector, by the records on the device |
| FsRuns.OpenFilesArePlaced | fs/read_write.c:54-61 | the record of an open file places it in the data area |
| FsSteps.OpenKeeps | fs/open.c:118-234 | an open keeps the invariant, and does not halt unless a table is full, the directory has no room, or it would truncate what it could not create |
| FsSteps.NewFileKeeps | fs/open.c:72-85 | a new inode has a slot of its own and a record that matches the maps |
| FsSteps.CloseKeepsCounts | fs/open.c:237-245 | closing keeps the counts right if nobody shares the descriptor, and no counts are right after it otherwise |
| FsCases.CloseAfterFork | fs/open.c:237-245 | after any fork, closing a file that was open before it, by either of the two, makes all counts wrong |
| FsCases.OpenForkClose | fs/open.c:237-245 | from any mounted file system, open and fork lead there |
| FsSteps.ForkKeeps | fs/fs.c:225-235 | after a fork the child has exactly its parent's files open, and all counts are right |
| FsSteps.ExitKeeps | fs/fs.c:237-250 | after an exit the process has no file open, and all counts are right |
| FsSteps.StatKeeps | fs/stat.c:12-44 | stat answers the size on the device and leaves the counts |
| FsSteps.AdvanceKeeps | fs/read_write.c:82-87 | a transfer moves the position, may grow the file, and keeps all this |
| FsInvariant.GetKeeps | fs/open.c:335-367 | get_inode keeps slots unique and equal to the device, and takes one reference |
| FsInvariant.SetRecordKeeps | fs/open.c:376-388 | a changed record that is written back keeps it |
| FsEffects.OpenGives | fs/open.c:118-234 | an open that succeeds gives its caller, in its first free entry, a descriptor of its own at position 0 on the inode that was found or made, empty if it was truncated; no other entry changes; otherwise nothing does |
| FsRecords.OpenLeavesRecords | fs/open.c:118-234 | an open without O_TRUNC leaves the file it finds as it is, in the cache and on the device; with it only the size changes, to 0; a create adds 16 to the size of the root directory; no other record changes |
| FsRecords.ExitSparesOthers | fs/fs.c:237-250 | an exit leaves the files of all others alone, with their positions, shared or not |
| FsRecords.ForkSharesFiles | fs/fs.c:225-235 | a fork leaves all files alone and gives the child those of its parent |
| FsRecords.CloseSparesOthers | fs/open.c:237-245 | a close leaves every file alone that does not share the descriptor |
| FsRecords.StatSparesAll | fs/stat.c:12-44 | stat changes nothing that is in use |
| FsRecords.TransferSparesOthers | fs/read_write.c:82-87 | a transfer changes no other record, position or inode |
| FsRecords.UnlinkLeavesRecords | fs/unlink.c:107-146 | an unlink wipes out the record of its file and changes the size of the root directory only if its last entry went; one that fails changes no record |
| FsRecords.NothingFound | fs/unlink.c:23-51 | for a path that names nothing stat and unlink answer -1 and do nothing |
| FsCalls.CallsDoTheirWork | fs/fs.c:292-320 | after any run, each call that does not halt answers and does what it is for |
| FsEffects.NewFileIsEmpty | fs/open.c:72-85 | a new file is empty and has an inode and an extent that are marked |
| FsEffects.AdvanceGives | fs/read_write.c:82-87 | the position moves by the bytes transferred, and the size becomes the greater of the old one and the position, in the cache and on the device |
| FsEffects.CloseGives | fs/open.c:237-245 | the entry and its descriptor are free, no other entry changes, and as many entries still point at the descriptor as shared it |
| FsCounts.RefsMember | fs/fs.c:225-250 | a descriptor is counted exactly when some entry points at it |
| FsCounts.TakeKeepsCounts | fs/fs.c:229-231 | one more entry, one more on both counts |
| FsCounts.DropKeepsCounts | fs/fs.c:241-247 | one entry less, one less on both counts, and the last frees the descriptor |
| FileServer.Server.constructor | fs/fs.c:252-281 | empty tables and the root directory in the cache are the mounted state |
| FileServer.Server.GetInode | fs/open.c:335-367 | the search of the table and the load from the device are the specified step, or the table is full |
| FileServer.Server.SyncInode | fs/open.c:376-388 | the record of the slot on the device, the data area kept |
| FileServer.Server.NewInode | fs/open.c:72-85 | a slot and a record for the new file |
| FileServer.Server.CreateFile | fs/open.c:317-328 | maps, inode and directory size change as specified |
| FileServer.Server.DoOpen | fs/open.c:118-234 | the whole call is the specified one, with its result |
| FileServer.Server.DoClose | fs/open.c:237-245 | the same for close |
| FileServer.Server.FsFork | fs/fs.c:225-235 | the loop over the copied entries shares each of them |
| FileServer.Server.FsExit | fs/fs.c:237-250 | the loop releases each entry |
| FileServer.Server.FsStat | fs/stat.c:12-44 | the same for stat |
| FileServer.Server.DoUnlink | fs/unlink.c:23-148 | the same for unlink, on both maps, the cache and the record |
| FileServer.Server.Grow | fs/read_write.c:84-87 | a position beyond the size becomes the size |
| MkFs.MakeFileSystem | fs/fs.c:111-208 | what mkfs writes is a file system that mounts into the invariant; the root directory has 80 bytes, the terminals the devices 0 to 2, and cmd.tar 1048576 bytes from sector 0x8000 |
| MkFs.FirstStats | fs/stat.c:12-44 | after the mount stat answers these sizes |
| MkFs.FirstRecordsOk | fs/fs.c:187-208 | the five first records agree with the two extents |
| FsSteps.ModeValues | include/fs.h:61-66 | the modes are the octal numbers of the three kinds of inodes |
| TransferSpec.WriteIsExact | fs/read_write.c:54-83 | a write moves what it is asked to and ends inside its file exactly if it ends before the end of the reservation, or at its end and does not begin in the first sector |
| TransferSpec.WritingAllOfItWritesTwice | fs/read_write.c:64-83 | filling a file with one write moves twice its bytes |
| TransferSpec.WriteStaysInside | fs/read_write.c:54-83 | a write stays in the sectors of its file exactly under the same condition, or if it writes nothing |
| TransferSpec.ReadIsExact | fs/read_write.c:54-83 | a read moves what it is asked to from inside the file exactly if it ends there and one chunk suffices |
| TransferSpec.ReadMoves | fs/read_write.c:54-83 | what any read moves, for every size: nothing from behind the last sector, the rest of the last sector as well across the end, and what later chunks repeat |
| TransferSpec.ReadGrowsFile | fs/read_write.c:82-87 | for every position and size, a read changes the size exactly if it begins behind the end, goes across it, or its chunks repeat beyond it |
| TransferSpec.ReadGrowsWholeFile | fs/read_write.c:82-87 | for a file that has not outgrown its sectors: exactly if it begins behind the end, goes across it or does not fit in one chunk |
| TransferSpec.ReadingAllOfItDoublesIt | fs/read_write.c:64-87 | cmd.tar, read as a whole, is taken to be twice as long afterwards |
| TransferSpec.FittingTransfer | fs/read_write.c:54-83 | a transfer that fits is one copy at its position |
| TransferSpec.TwoChunks | fs/read_write.c:64-83 | a transfer of two chunks copies up to the end of the buffer, and from the next sector on up to its whole length again |
| ReadWrite.Transfer | fs/read_write.c:54-83 | the loop over chunks, for every position, length and bound: it moves so many bytes, and device and buffer are what copying chunk after chunk makes of them |
| ReadWrite.DoRw | fs/read_write.c:16-90 | the same for an open file, with the new position and size; without the right to it nothing changes and the result is -1 |
| FileBytes.EffectOnFile | fs/read_write.c:68-83 | for the file itself, a write that fits is an overwrite at the position and a read a copy from there |
| FileBytes.EffectOnOthers | fs/read_write.c:68-83 | a file whose extent is apart stays as it is |
| FileBytes.WriteThenRead | fs/read_write.c:68-83 | what is written at a position is what is read from there |
| FileBytes.OpenFilesMayTransfer | fs/read_write.c:54-61 | in every state that runs lead to, a transfer that fits meets what do_rw asks for and moves exactly its bytes |
| FileBytes.PiecesFit | kernel/main.c:24-49 | the pieces that untar reads fit as long as they lie in the file |
| FileBytes.ReadStopsAtTheEnd | fs/read_write.c:54-58 | a read stops with the sector in which the file ends, by the size in its record |
| FileBytes.ReadsLikeATape | kernel/main.c:24-46 | such a read gives the bytes at the position and leaves the file as it is |
| FileBytes.WritesAppend | kernel/main.c:47 | such a write puts its bytes behind those in front of the position |
| MmRuns.NoStatusIsLost | mm/exit.c:13-79 | after any forks, exits and waits: nobody waits for a child that is a zombie, the parent of every slot is alive, each status was delivered as often as it was left or is held by a zombie, and each wait was answered once or is open |
| MmRuns.StatusGoesToParent | mm/exit.c:13-79 | in any run, a status goes to the process that forked the child, or to Init after that one has exited, and only who waits is told that it has no child |
| MmRuns.ParentsAreKnown | mm/exit.c:44-52 | after any run, the parent in the table is the process that forked the one in the slot, or Init after that one has exited |
| MmRuns.ExitTells | mm/exit.c:37-52 | an exit answers the parent if it waits, then Init for the first zombie left to it, nobody else; the slots of the process become Init's |
| MmRuns.OrphansTold | mm/exit.c:44-52 | the loop over orphans sends at most one message, to Init |
| MmRuns.WaitTells | mm/exit.c:60-78 | a wait takes the first zombie among the children: its status goes to the process that waits and its slot is free; otherwise it waits, or is told that there is none |
| MmRuns.ForkMakesAChild | mm/forkexit.c:19-34 | a fork gives the first free slot to a child that runs like its parent and changes nothing else; it fails exactly if no slot is free |
| MmRuns.WaitWithoutChildren | mm/exit.c:60-78 | without children wait answers -1 exactly if no slot names the process any more, and blocks otherwise |
| MmRuns.StuckForGood | mm/exit.c:69-71 | a process other than Init that waits without children still does after any run |
| MmRuns.OneWaitTooMany | mm/exit.c:55-79 | in every state, a process other than Init whose children have all exited gets as many waits answered as it has children; the next one is never answered |
| MmRuns.AnyNumberOfChildren | mm/exit.c:55-79 | from the start, every native process gets there with every number of children that the table holds |
| MmSpec.ExitKeeps | mm/exit.c:22-53 | an exit keeps the invariant, through all adoptions |
| MmSpec.WaitKeeps | mm/exit.c:55-79 | a wait keeps it |
| MmSpec.ForkKeeps | mm/forkexit.c:16-34 | a fork keeps it, and takes the slot of a forked process |
| MemoryManager.Manager.DoExit | mm/exit.c:22-53 | the loop over the table is the specified exit |
| MemoryManager.Manager.DoWait | mm/exit.c:55-79 | the loop over the table is the specified wait |
| MemoryManager.Manager.DoFork | mm/forkexit.c:16-34 | the first free slot gets the parent's entry, -1 if there is none |
| MemoryManager.Manager.Serve | mm/mm.c:13-47 | fork is answered at once, with -1 exactly if the table is full and else with the slot of the new child; exit and wait are not |
| LineDiscipline.ReadReturnsTheEditedLine | kernel/tty.c:51-83 | a read of n > 0 ends at the newline or the n-th character that stays, with one resume, the buffer holding the edited text; until then what is held and what is wanted add up to n; what is typed later is lost |
| LineDiscipline.BackspaceTakesBack | kernel/tty.c:67-71 | a character and a backspace might as well not have been typed |
| LineDiscipline.PlainTextStays | kernel/tty.c:60-66 | characters from 32 to 126 stay as they are typed |
| LineDiscipline.ControlIsIgnored | kernel/tty.c:60-72 | other characters than these and 8 might as well not have been typed |
| LineDiscipline.LineOfText | kernel/tty.c:72-80 | a line of text and character 10 come back as the text, with one resume |
| Tty.Terminal.SendToBuf | kernel/tty.c:32-40 | the ring is a queue of 256 that drops what is too much |
| Tty.Terminal.Take | kernel/tty.c:53-57 | the oldest character comes first |
| Tty.Terminal.TtyWrite | kernel/tty.c:51-83 | emptying the ring is the line discipline on its contents, in the buffer of the process; every message goes to the caller and names the process that reads |
| Tty.Terminal.ReadInRounds | kernel/tty.c:140-163 | a read and any rounds of keys: nothing is sent before the line ends, then one message, to the one that asked, for the process that reads, with the length of the edited line, which is in its buffer |
| TtyProtocol.CallsAreAnsweredOnce | kernel/tty.c:72-163 | over any reads, opens and writes of terminals and calls on files: each process is in exactly one place, each call got one reply or is open, and the file system never takes a resume for the answer to its own request |
| TtyProtocol.LineReturns | kernel/tty.c:72-80 | a line that is done returns the call of its reader, who is not recorded any more |
| TtyProtocol.WhileIdle | kernel/tty.c:140-163 | a terminal task that waits wakes up with a key, and takes a request at once |
| TtyProtocol.LossExactly | kernel/tty.c:100-106 | a reader is lost exactly when the read of another process on its terminal is taken, or its own read of no characters |
| TtyProtocol.LostForGood | kernel/tty.c:72-80 | no run answers its call |
| TtyProtocol.NobodyIsLost | kernel/tty.c:100-106 | nobody ever is, in any run, exactly if no two processes read from one terminal and none reads no characters |
| TtyProtocol.SecondReaderDisplaces | kernel/tty.c:100-106 | for any terminal and two readers there is a run that loses the first |
| TtyProtocol.EmptyReadIsLost | kernel/tty.c:59-81 | a run in which a read of no characters is not answered |
| TtyProtocol.HaltsExactly | kernel/tty.c:72-80 | the kernel stops exactly when a line is done while the file system waits to hand over a read, an open or a write, or when it hands one over while the terminal has a line to report |
| TtyProtocol.LineMeetsRequest | kernel/tty.c:72-80 | for any reader and any request of another process there is a run that stops it |
| TtyProtocol.NeverHaltsExactly | fs/read_write.c:41-51 | no run of a set of requests stops it exactly if a process that reads from a terminal is the only one that reads from, writes to or opens any terminal |
| TtyProtocol.ShellsHalt | kernel/main.c:204-211 | the two shells that Init starts: the first line of one, while the other one opens its terminal |
| TtyProtocol.ServeInTheKernel | kernel/proc.c:86-139 | handing over a request is a send of the message machine: it meets, blocks, or is refused as a deadlock exactly as the protocol says |
| TtyProtocol.LineDoneInTheKernel | kernel/proc.c:86-139 | the same for the message that resumes a read |
| Untar.Untar | kernel/main.c:13-60 | the members come out as they are, in order, up to the first that cannot be opened; then the archive is marked and holds nothing to extract |
| Untar.CopyBody | kernel/main.c:44-51 | a body is copied exactly, and its blocks are consumed |
| Untar.ParseSize | kernel/main.c:39-41 | the octal size |
| Untar.ThreeDigits | kernel/main.c:39-41 | the digits count eightfold from right to left |
| Untar.HeaderFields | kernel/main.c:33-41 | the name is at byte 0 of a header and the size at byte 124 |
| Untar.PaddedIsLeast | kernel/main.c:46 | a body takes the least number of whole blocks |
| Untar.PackIsArchive | kernel/main.c:21-51 | members laid out in the ustar format are an archive of these members |

## Left out

- System calls are atomic here. kernel/kernel.asm:313 enables interrupts before the dispatch, so that a hardware interrupt inside one is an assumption of the model, not a fact about the code.
- The `schedule` inside `block` is not part of `Ipc`; `Scheduler` models it with blocking and unblocking as steps of its own.
- Ipc.Kernel.SysSendrec: a send to ANY or INTERRUPT, which indexes the table out of range, is not a step.
- A receive from INTERRUPT reads `proc_table[-10]` (kernel/proc.c:189) in the code; here it matches no sender and INTERRUPT is remembered.
- Buffers of other processes are values: a message is copied when it is sent, and a sender that changes its buffer while it is queued is not modelled.
- Port I/O, the disk driver, partitions, the keyboard, the console, boot and loader code: `rw_sector` is an array copy, and keys, time and names are parameters.
- Names in the directory: a path is what the search found, and the size of the directory after an unlink is a parameter. `search_file` and the directory entries are not modelled, nor is the super block beyond its layout.
- One device; the device number of an inode is left out.
- FileServer.Server.DoOpen: the message DEV_OPEN to the terminal task is not sent; what it does to the kernel is in `TtyProtocol`.
- FileServer.Server.DoClose: only for entries that are open; closing a descriptor that is shared is shown to break the counts (`FsSteps.CloseKeepsCounts`) and is not a step of `FsRuns.Run`.
- FileServer.Server.CreateFile: the entry in the directory is not written, only the size of the directory changes.
- FileServer.Server.DoUnlink: the entry in the directory is not cleared; the new size of the directory is a parameter.
- FsRuns.RunsAreSafe: a transfer moves any number of bytes, of which the number that `ReadWrite.DoRw` returns is one. A file is created only while a slot of 2048 sectors is to spare; what happens otherwise is `Extents.CrowdedCreate`. A fork copies the table of open files and tells the file system in one step.
- ReadWrite.DoRw: the device and the buffer have to reach as far as the chunks do (`TransferSpec.Room`), since the code does not look. Of the terminal branch only the protocol is modelled. The device is taken to have one sector behind each file, which a transfer that ends with the reservation touches.
- ReadWrite.Transfer: needs the same room; offsets are unbounded numbers; a position beyond 2^31 does not occur in a file of 2048 sectors.
- MemoryManager.Manager.DoExit: for forked processes; the parent of a native one is NO_TASK, which is no index of the table. The message to the file system is not part of it.
- MemoryManager.Manager.DoFork: copying memory and segment descriptors, and the message to the file system, are not part of it.
- MemoryManager.Manager.Serve: EXEC and unknown requests are left out.
- Scheduler.ProcTable.Schedule: with nobody to run the code spins until an interrupt; the method asks for somebody.
- Scheduler.ProcTable.ClockHandler: the same.
- SchedulerSpec.NoStarvation: ticks and priorities are unbounded numbers, and processes are neither created nor removed in between.
- TtyProtocol.CallsAreAnsweredOnce: the answer to a write is whatever lies at the address of a pointer (kernel/tty.c:123); its type is taken not to be SUSPEND_PROC. The file system may take requests in any order; messages to the disk driver are part of its being busy.
- Tty.Terminal.TtyWrite: characters are echoed by `disp_char`, which is left out; a read of 0 characters is never resumed (`TtyProtocol.EmptyReadIsLost`).
- Untar.Untar: reading and writing is copying on characters, which `FileBytes.ReadsLikeATape` and `FileBytes.WritesAppend` state for the bytes of files; whether a name can be opened is a parameter.
- ELF loading, argument stacks, the shell, printf and fs/close.c, which is not linked.
