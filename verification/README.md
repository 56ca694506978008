# A verified model of rusty-xv6

rusty-xv6 is an xv6 for 32-bit x86: a host tool that writes a file system image, a boot loader, and a
kernel with page tables, spin locks, context switches, traps, a process table, a disk queue, a console
and a path walker. This project models those parts in Dafny and proves what each of them promises.
`dafny verify dfyconfig.toml` checks the whole project.

**File system image** (`LittleEndian`, `DiskLayout`, `AppendSpec`, `BlockOwnership`, `AppendCorrect`,
`AppendRuns`, `AppendChunks`, `AppendCapacity`, `ImageBuilder`, `ImageRuns`, `Mkfs`). The image is an array
of 1000 sectors of bytes, changed in place. `ImageBuilder.FsBuilder` does what `mkfs` does, sector by
sector; `AppendSpec` is the same as a function of the bytes. The main results are over every interleaving
of inode allocations and appends: each inode reads as the concatenation of what was appended to it, every
block handed out belongs to exactly one slot of one inode, an append that fails part-way changes nothing
that can be read, cutting the data differently gives the identical image, and an append succeeds exactly
when the blocks it needs are left. `Mkfs.BuildImage` is `main`: the finished directory decodes to the
files, the bitmap marks exactly the blocks in use, and `main` succeeds exactly when names, files and the
number of blocks fit.

**Page tables** (`PageTables`, `VirtualMemory`, `KernelMap`). A directory and its tables are read through
`Translate`, a flat map from virtual page to entry. `map_pages` is shown to extend that map by exactly a
(cyclic) range of pages, in 32-bit arithmetic, also when the range ends at 4 GiB. `setup_kvm` succeeds
exactly when the linker's data address is page-aligned and lies strictly between the kernel's link address
and the top of memory and 64 pages are free for tables, and then maps exactly the pages of `KernelPage`.

**Spin locks** (`SpinLocks`). Any number of locks and CPUs, each atomic access one step, sequentially
consistent. Mutual exclusion, the exactness of `holding`, when a CPU panics, what whole calls of `acquire`
and `release` do, and the counting of nested interrupt disabling hold in every interleaving.

**Switching and traps** (`X86`, `ContextSwitch`, `Traps`). A small x86 machine runs the kernel's assembly.
Over any run on any number of stacks a thread is resumed exactly as it left, with its stack as it left it;
a trap gives back every register; a new process, first switched to after any run of the others, reaches its
first user instruction with the state `user_init` wrote.

**Process table, disk queue, boot loader, console, paths** (`ProcessTables`, `IdeQueues`, `Bootloader`,
`Vga`, `Paths`). Each is an in-place implementation proved against a simple specification, which is then
proved to have the promised property for all runs or inputs.

Modelling choices:

- The host of mkfs is little-endian and its counters do not overflow. Callers append only to inodes they
  have allocated.
- mkfs writes a 14-byte file name without its last byte, rounds the root directory's size up by a whole
  block when its entries fill whole blocks, and hands out inode numbers past the inode sectors.
  `Mkfs.NameRoundTrip`, `Mkfs.RootSound` and `ImageBuilder.InodeSectors` give the exact conditions under
  which none of this happens, `Mkfs.ThirtyFillTheBlock` and `ImageBuilder.InodeUnderBitmap` inputs that fail.
- Addresses in the page-table model are integers below 2^32 with explicit wrap-around; shifts and masks of
  addresses are divisions and remainders, flag bits are bit vectors. The page allocator is a list of
  distinct aligned pages; when it is empty the kernel panics, here `OutOfMemory`.
- A path that starts with a slash is resolved from the root only if it is exactly "/"; every other path
  starts at the current directory, as the code does. `Paths.AbsoluteIffSlash` is the exact condition.
- The disk queue marks a buffer valid also when the disk reports an error, sends the byte for reading to the
  data port, and `write_to_disk` queues a read. `IdeQueues.DataArrives`, `IdeQueues.CommandReceived` and
  `IdeQueues.WordsIffWrite` give the exact conditions, `IdeQueues.ErrorMarksValid` and
  `IdeQueues.DirtyDataLost` failing runs.
- The boot loader's memory is a byte array, so address arithmetic that wraps at 4 GiB is outside the model.
  Its program headers lie in the page it reads, and no segment overwrites one still to be read.

## Model

| member | source | states |
|---|---|---|
| DiskLayout.InodeRoundTrip | mkfs/src/fs.rs:50-65 | the 64 bytes of an on-disk inode decode to the inode they encode |
| DiskLayout.InodeLayout | mkfs/src/fs.rs:50-65 | which bytes of an on-disk inode hold which field, little-endian |
| DiskLayout.InodesArePacked | mkfs/src/fs.rs:92-97 | the inodes are one packed array of 64-byte records from sector 32 on |
| DiskLayout.IndirectIsArray | mkfs/src/main.rs:147-158 | an indirect block is the array of its 128 little-endian block numbers |
| DiskLayout.GetPut | mkfs/src/main.rs:77-97 | reading an inode after writing one gives the written one for that number and the old one for every other, though eight share a sector |
| DiskLayout.TablePut | mkfs/src/main.rs:77-87 | writing an inode changes one entry of the inode table and nothing else in it |
| DiskLayout.SlotSet | mkfs/src/main.rs:147-158 | the 128 block numbers of an indirect block are independent of each other |
| ImageBuilder.FsBuilder.constructor | mkfs/src/main.rs:38-63 | whatever the file held, its first 1000 sectors become zeros plus the super block, with counters 1 and 59; sectors past them stay |
| ImageBuilder.SuperBlockDescribes | mkfs/src/main.rs:189-197 | sector 1 of a new image reads as the seven fields that describe the layout in use, and every other sector is zero |
| ImageBuilder.FsBuilder.WriteSect | mkfs/src/main.rs:70-72 | one sector is replaced; a write past the end extends the file |
| ImageBuilder.FsBuilder.ReadSect | mkfs/src/main.rs:73-75 | a sector inside the file is returned, a read past the end is an error |
| ImageBuilder.FsBuilder.WriteInode | mkfs/src/main.rs:77-87 | the read-modify-write of a sector is the inode update of the layout; any other number changes the sector it names, or is an error past the end |
| ImageBuilder.FsBuilder.ReadInode | mkfs/src/main.rs:88-97 | the inode decoded is the one at that number, and a number past the end of the file is an error |
| ImageBuilder.FsBuilder.AllocBlock | mkfs/src/main.rs:99-113 | bit i of the bitmap sector is set exactly when i is below the free counter, no other sector changes, and more than 4095 blocks panic |
| ImageBuilder.FsBuilder.AllocateInode | mkfs/src/main.rs:114-123 | the next inode number, however large, is returned and its inode written with one link, size 0 and no blocks; past the end of the file it is an error |
| ImageBuilder.InodeSectors | mkfs/src/main.rs:114-123 | an inode lies in the inode sectors if and only if its number is below 208, which alloc_inode does not check |
| ImageBuilder.InodeUnderBitmap | mkfs/src/main.rs:77-113 | inode 208 lies in the bitmap sector, and reads as kind 0xFFFF once the bitmap is written |
| ImageBuilder.FsBuilder.LocateSector | mkfs/src/main.rs:138-159 | the sector for an offset, allocating through direct and indirect slots, agrees with Locate, errors included |
| ImageBuilder.FsBuilder.AppendInode | mkfs/src/main.rs:130-175 | the loop over the data has the status, image and counters of Append |
| BlockOwnership.GrowStruct | mkfs/src/main.rs:125-129 | handing fresh blocks to new slots of one inode keeps the block map one-to-one and onto |
| BlockOwnership.FillStruct | mkfs/src/main.rs:161-166 | overwriting a data block moves no slot of any inode |
| AppendCorrect.LocateStruct | mkfs/src/main.rs:138-159 | locating a sector keeps the block map, for each of the direct, first indirect and later indirect cases |
| AppendCorrect.LocateKeepsBytes | mkfs/src/main.rs:138-159 | locating a sector, successfully or not, changes no byte of any inode |
| AppendCorrect.FillBytes | mkfs/src/main.rs:161-166 | filling part of a block changes exactly the given bytes of exactly one inode |
| AppendCorrect.StepCorrect | mkfs/src/main.rs:135-170 | one loop iteration appends one piece, keeps every other inode and the metadata, and keeps the invariant |
| AppendRuns.LoopCorrect | mkfs/src/main.rs:134-170 | the loop appends the data on success, and in any case nothing read through the stored inodes has changed |
| AppendRuns.AppendAppends | mkfs/src/main.rs:130-175 | a successful append adds the data to one file, leaves all others, and keeps blocks unshared and unleaked |
| AppendRuns.FailedAppend | mkfs/src/main.rs:130-175 | an append that stops with an error or a panic leaves every inode and every file as it was |
| AppendRuns.AllocAllocates | mkfs/src/main.rs:114-123 | allocating an inode makes an empty file and touches no other |
| AppendRuns.AllocHeaders | mkfs/src/main.rs:114-123 | a new inode has the kind asked for, no device numbers and one link, and no other inode changes in these |
| AppendRuns.AppendHeaders | mkfs/src/main.rs:130-175 | no append, successful or not, changes the kind, device numbers or links of any inode |
| AppendChunks.LoopSplit | mkfs/src/main.rs:135-170 | writing x + y is writing x and then y, also when either fails |
| AppendChunks.AppendInPieces | mkfs/src/main.rs:130-175 | two appends give the same image bytes, sizes and counters as one append of both pieces |
| AppendCapacity.AppendSucceeds | mkfs/src/main.rs:135-166 | an append succeeds if and only if the file stays within 140 blocks and the blocks it needs, indirect block included, are left, and takes exactly those; it panics if and only if it would reach the 141st block before the blocks run out |
| ImageRuns.RunCorrect | mkfs/src/main.rs:99-175 | from any sound state, each file grows by what was appended to it, up to the first call that fails |
| ImageRuns.RunHeaders | mkfs/src/main.rs:99-175 | in every run the n-th inode allocated has the n-th kind asked for and one link |
| ImageRuns.SoundIsPartitioned | mkfs/src/main.rs:125-175 | every block from 59 to the free counter is in use by exactly one slot, no other is, and blocks not handed out are zero |
| ImageRuns.RunFromBlank | mkfs/src/main.rs:38-175 | every run from a new image: contents are the concatenations, and blocks are partitioned if it succeeded |
| Mkfs.NameRoundTrip | mkfs/src/fs.rs:77-83 | a name survives the name field exactly when it has at most 13 bytes; one of 14 loses its last byte |
| Mkfs.SetName | mkfs/src/fs.rs:77-83 | the name field is filled, unless the name has a slash or more than 14 bytes, which panics |
| Mkfs.EntryLayout | mkfs/src/fs.rs:67-83 | a directory entry is its little-endian inode number, its name and zeros |
| Mkfs.Stripped | mkfs/src/main.rs:222-228 | exactly one leading underscore is dropped |
| Mkfs.DirectoryDecodes | mkfs/src/main.rs:203-235 | the directory bytes decode to ".", ".." and each file with its inode number, in order |
| Mkfs.FixUpGrows | mkfs/src/main.rs:248-254 | if the last block is partly filled, the size fix-up adds zero bytes and keeps the state sound |
| Mkfs.FixUpSound | mkfs/src/main.rs:248-254 | the rounded root inode has a block for every byte if and only if its size was not a multiple of 512 |
| Mkfs.RootSound | mkfs/src/main.rs:203-254 | after main has added its files, the fix-up leaves a sound root inode if and only if the number of files plus 2 is not a multiple of 32 |
| Mkfs.ThirtyFillTheBlock | mkfs/src/main.rs:217-254 | thirty empty files are an input with which main succeeds and the root inode is not sound |
| Mkfs.Finish | mkfs/src/main.rs:248-257 | the root inode and bitmap writes keep all files and the set of blocks in use |
| Mkfs.AddFile | mkfs/src/main.rs:217-246 | one file adds its directory entry and its bytes under the next inode number, a regular file with one link, if and only if the files so far are buildable; a name with a slash or over 14 bytes panics |
| Mkfs.AppendPieces | mkfs/src/main.rs:237-245 | the read loop appends a whole file if and only if it has at most 140 blocks and its blocks are left, however the reads cut it |
| Mkfs.Conclude | mkfs/src/main.rs:248-257 | the fix-up and the bitmap finish the image, which is sound exactly when the directory does not fill whole blocks |
| Mkfs.BuildImage | mkfs/src/main.rs:188-259 | main succeeds if and only if names fit, files have at most 140 blocks and everything takes at most 941; then every file is in the image, the root is a directory and the others regular files, the directory lists them, bit b is set exactly when b is metadata or in use, and the image is sound unless the directory fills whole blocks |
| Mkfs.FinishedDirectory | mkfs/src/main.rs:203-257 | the finished directory decodes to ".", "..", the files in order with inodes holding their bytes, and otherwise entries with inode number 0 |
| PageTables.EntryFields | kernel/src/memory.rs:113-134 | an entry made from an aligned address gives back that address and the masked flags |
| PageTables.WithTableKeeps | kernel/src/vm.rs:53-69 | a newly allocated table is unshared and translates nothing |
| PageTables.WithEntryMaps | kernel/src/vm.rs:70-90 | because tables are unshared, writing one entry changes the translation of exactly one page |
| PageTables.TableAdded | kernel/src/vm.rs:53-69 | adding a table raises the number of tables by exactly one |
| PageTables.EntryDecides | kernel/src/vm.rs:60-66 | because directory entries allow all access, what a page allows is what its page table entry says |
| VirtualMemory.AddressSpace.WalkPageDir | kernel/src/vm.rs:43-72 | the entry found is the one for the address, no translation changes, tables stay unshared and at most this one is added, with a directory entry that allows all access; pages are neither lost nor created |
| VirtualMemory.AddressSpace.MapPage | kernel/src/vm.rs:86-90 | one page is mapped if it was free, otherwise nothing changes and the remap panic is reported |
| VirtualMemory.AddressSpace.MapPages | kernel/src/vm.rs:76-98 | every page of the cyclic range was free and is mapped to consecutive frames, all others are unchanged; a remap panic means some page of the range was present, lack of memory that one has no table and no page is left; tables are added only for the range |
| VirtualMemory.NextPage | kernel/src/vm.rs:91-95 | the loop's page advances by one within the range, also across 4 GiB, so the loop ends |
| VirtualMemory.MapsInterval | kernel/src/vm.rs:74-98 | for a range that does not wrap, page p maps to its frame with perm and PRESENT, up to and including the last page below 4 GiB |
| VirtualMemory.MapsAccess | kernel/src/vm.rs:74-98 | by both entries together, each page of the range then allows user and write access exactly as perm says, and others what they did |
| KernelMap.FitIffGood | kernel/src/vm.rs:102-138 | the four regions are disjoint exactly when the data address is aligned and strictly between KERNLINK and KERNBASE + PHYSTOP |
| KernelMap.ExpectKernelPage | kernel/src/vm.rs:109-138 | what the regions map: physical memory at KERNBASE, read-only exactly on text, devices to themselves, nothing else, no user page |
| KernelMap.SetupKvm | kernel/src/vm.rs:101-162 | it succeeds if and only if the data address is good and 64 pages are there for tables, never remaps then, and maps exactly the kernel's pages: by both entries writable but for the text, and none for user programs |
| KernelMap.UvmInit | kernel/src/vm.rs:204-216 | only page 0 is added, by both entries a user page that can be written, and its memory becomes the code followed by zeros; exactly when the code is too long, page 0 is present, or no table can be had, it stops instead |
| SpinLocks.StepInv | kernel/src/lock.rs:27-71 | every step of every CPU keeps the invariant on locks, holders and interrupt counts |
| SpinLocks.MutualExclusion | kernel/src/lock.rs:27-63 | in every interleaving at most one CPU owns a lock, and cpu is -1 or its holder, -1 between the swap and the store |
| SpinLocks.HoldingIsExact | kernel/src/lock.rs:65-71 | the two separate loads of holding give the right answer for the CPU making them |
| SpinLocks.InterruptsRestored | kernel/src/lock.rs:204-237 | num_cli counts locks held or being acquired plus open sections, interrupts are off while it is positive, and at 0 the flag is as it was |
| SpinLocks.PanicIff | kernel/src/lock.rs:32-52 | a CPU panics exactly when it acquires a lock it holds or releases one it does not; pop_cli never panics |
| SpinLocks.AcquireTakes | kernel/src/lock.rs:27-46 | in every interleaving, a CPU that returns from acquire holds the lock, which names it, with interrupts off one level deeper |
| SpinLocks.ReleaseReleases | kernel/src/lock.rs:48-63 | in every interleaving, a CPU that returns from release held the lock and no longer does, the lock no longer names it, and one level is undone |
| SpinLocks.ReleaseReturns | kernel/src/lock.rs:48-63 | the release of a held lock returns after exactly six steps of its CPU, whatever the others do, and never panics |
| SpinLocks.CallAdvances | kernel/src/lock.rs:27-63 | every step of a call brings it nearer its end, but for a spin on a taken lock, which changes nothing |
| SpinLocks.FreeLockIsTaken | kernel/src/lock.rs:34-36 | a compare-and-swap that finds the lock free makes its CPU the only owner |
| SpinLocks.PopsUndoPushes | kernel/src/lock.rs:204-228 | n pop_cli undo n push_cli: interrupts stay off until the last, which puts the flag back |
| SpinLocks.SectionCounts | kernel/src/lock.rs:229-237 | opening a cli section adds one level and closing it takes one away, without panic |
| ContextSwitch.SwitchEffect | kernel/src/proc.rs:467-489 | running the assembly stores the caller's five words and its context address, and loads the other context |
| ContextSwitch.SwitchStep | kernel/src/proc.rs:464-489 | a switch leaves every other suspended thread intact and resumes the target as it left |
| ContextSwitch.RunInv | kernel/src/proc.rs:206-223 | in every run all suspended threads have their saved words on their own stack in the layout of Context |
| ContextSwitch.StackStays | kernel/src/proc.rs:464-489 | while a thread is off the CPU no word of its stack changes, in any run of the others |
| ContextSwitch.ResumeExact | kernel/src/proc.rs:464-489 | whatever runs in between, a thread is resumed with the registers, return address and stack pointer it left with, and its stack as it left it |
| ContextSwitch.ThereAndBack | kernel/src/proc.rs:464-489 | two threads on two stacks can switch away and back, so the hypotheses of ResumeExact are met by an actual run |
| Traps.EntryBuildsFrame | kernel/src/trap.rs:71-107 | hardware, vector stub and alltraps build exactly the TrapFrame layout, from either ring, load the kernel's segments, and pass the frame's address |
| Traps.TrapRetLoads | kernel/src/trap.rs:147-157 | trapret loads every register from the frame, and stack and segment too when returning to ring 3 |
| Traps.TrapRoundTrip | kernel/src/trap.rs:125-157 | entry, any trap handler that keeps the frame, and exit together are the identity on all registers |
| Traps.NewProcessSuspended | kernel/src/proc.rs:332-393 | a new process looks like a thread suspended at forkret with zero registers, above it trapret and the user frame |
| Traps.NewProcess | kernel/src/proc.rs:332-393 | making a process keeps the invariant of all threads and makes it a suspended one |
| Traps.FirstResume | kernel/src/proc.rs:332-393 | after any run of the others, the first switch to a new process starts forkret with zero registers, whose return enters trapret at the frame, and the user state is the one user_init wrote |
| Traps.FrameIsTheProcessFrame | kernel/src/vm.rs:232-232 | a trap from ring 3 puts its frame at the process's own trap_frame |
| ProcessTables.ProcessTable.GetRunnable | kernel/src/proc.rs:321-323 | the front of the run queue is taken, or nothing when it is empty |
| ProcessTables.ProcessTable.AllocProc | kernel/src/proc.rs:325-336 | a new process gets the next number and is an embryo |
| ProcessTables.ProcessTable.StartProc | kernel/src/proc.rs:392-396 | a process is marked runnable and queued last |
| ProcessTables.ProcessTable.DispatchNext | kernel/src/proc.rs:510-515 | the scheduler takes the front process and marks it running |
| ProcessTables.ProcessTable.SleepOn | kernel/src/proc.rs:399-404 | the process joins the end of the channel's list |
| ProcessTables.ProcessTable.WakeupAll | kernel/src/proc.rs:407-414 | the channel's whole list moves, in order, to the end of the run queue and becomes runnable |
| ProcessTables.StepInv | kernel/src/proc.rs:317-414 | every operation keeps each process in exactly one place, with the state recorded for that place |
| ProcessTables.RunInv | kernel/src/proc.rs:317-414 | so in every run, with process numbers distinct below 2^32 |
| ProcessTables.FirstInFirstOut | kernel/src/proc.rs:317-323 | the process at index k of the run queue is dispatched after exactly k others, whatever else happens |
| ProcessTables.RunOrder | kernel/src/proc.rs:317-414 | in every run the sleepers of a channel are those put there since its last wakeup, in order, and the run queue is everything ever enqueued but for what was dispatched, both computed from the operations alone |
| ProcessTables.DispatchOrder | kernel/src/proc.rs:317-323 | the k-th dispatch of a run takes the k-th process ever enqueued |
| ProcessTables.WokenInOrder | kernel/src/proc.rs:399-414 | processes woken together run in the order in which they went to sleep, after those queued before the wakeup |
| ProcessTables.SleepsWhileRunning | kernel/src/proc.rs:399-437 | in every run a process that goes to sleep is still marked Running, which the assertion in sched refuses |
| IdeQueues.IdeQueue.StartDisk | kernel/src/fs/ide.rs:78-116 | the front request's address and command go to the ports, with the data of a write, and running is set |
| IdeQueues.AddressRoundTrip | kernel/src/fs/ide.rs:81-104 | the bytes at the disk's registers give it one sector of the block and device asked for, if and only if they are below 2^28 and 2 |
| IdeQueues.CommandReceived | kernel/src/fs/ide.rs:105-113 | the disk's command register gets what the request asks if and only if it is a write, or held the byte for reading already; the read byte goes to the data port |
| IdeQueues.PortsInOrder | kernel/src/fs/ide.rs:66-137 | in every run the ports receive, in order, exactly the writes of the requests started, each for its own block |
| IdeQueues.IdeQueue.AppendRequest | kernel/src/fs/ide.rs:66-72 | the request is queued last, and started if it is alone |
| IdeQueues.IdeQueue.NotifyReady | kernel/src/fs/ide.rs:118-137 | the front request is finished, its buffer valid and clean, its waiter woken, and the next one started |
| IdeQueues.IdeQueue.IdeIntr | kernel/src/fs/ide.rs:219-226 | an interrupt on an empty queue does nothing |
| IdeQueues.ServedInOrder | kernel/src/fs/ide.rs:54-138 | in every run from any flags and data, with clients changing buffers at any time, requests start, complete and wake their waiters in order, running means non-empty, and flags and data are those of the last client access or completion |
| IdeQueues.OneRequest | kernel/src/fs/ide.rs:118-137 | a buffer with one request outstanding keeps flags and data until that request completes, whatever others do; then it is valid, clean, and holds the disk's data or, after an error, its own |
| IdeQueues.WaitEnds | kernel/src/fs/ide.rs:174-217 | the waits of read_from_disk and write_to_disk end exactly when their own request has completed |
| IdeQueues.DataArrives | kernel/src/fs/ide.rs:122-130 | after a read the buffer holds what the disk returned if and only if there was no error, or it held that before |
| IdeQueues.ErrorMarksValid | kernel/src/fs/ide.rs:122-130 | a run in which a disk error leaves a buffer valid without the block's data |
| IdeQueues.WordsIffWrite | kernel/src/fs/ide.rs:105-113 | data goes to the disk in a run if and only if a request with the command Write is started |
| IdeQueues.NothingWritten | kernel/src/fs/ide.rs:174-217 | through read_from_disk and write_to_disk, both of which queue a read, no data is ever sent to the disk |
| IdeQueues.DirtyDataLost | kernel/src/fs/ide.rs:196-217 | a run in which write_to_disk replaces dirty data by what the disk holds |
| Bootloader.Overrun | bootloader/src/main.rs:34-47 | whole sectors reach fewer than 512 bytes past either end of the range asked for |
| Bootloader.ReadSegment | bootloader/src/main.rs:36-47 | kernel byte offset + k goes to pa + k for the sectors around the range, and nothing else is written |
| Bootloader.LoadSegment | bootloader/src/main.rs:63-70 | a segment becomes its file bytes followed by zeros up to its memory size, and every byte it touches is known |
| Bootloader.RecordsRead | bootloader/src/elf.rs:1-66 | for a page that holds the encodings of an ELF header and program headers, what is read as entry point, table and segments are the records' fields |
| Bootloader.BootMain | bootloader/src/main.rs:50-73 | memory afterwards, byte by byte, for any overlaps: the last segment to touch an address wins; a file without the ELF magic is refused |
| Bootloader.BootLoads | bootloader/src/main.rs:50-73 | for a file with given headers, every segment whose memory no later one touches is loaded at its p_paddr, whatever the padding of the others overlaps; the entry point and bytes no segment touches are kept |
| Vga.LinesSnoc | kernel/src/console.rs:132-151 | the log of lines wrapped at 80 can be computed byte by byte |
| Vga.LinesHoldText | kernel/src/console.rs:132-160 | the log holds every byte but newlines, in order, in lines of at most 80 |
| Vga.NewlineSplits | kernel/src/console.rs:132-151 | a newline ends a line: what follows is laid out as on a new log |
| Vga.LongTextWraps | kernel/src/console.rs:132-151 | text without newlines fills lines of exactly 80 cells, the last one excepted |
| Vga.ColoredAt | kernel/src/console.rs:153-160 | a byte of a string is shown as itself exactly if it is printable, a newline or the block itself, and as a block otherwise |
| Vga.Writer.Scroll | kernel/src/console.rs:170-177 | the in-place loops move every row up by one and blank the last |
| Vga.Writer.ClearRow | kernel/src/console.rs:185-193 | one row becomes blanks in the current colour |
| Vga.Writer.ClearScreen | kernel/src/console.rs:162-166 | all cells become blank, and the screen then shows an empty log exactly when the cursor is at the top left |
| Vga.Writer.NewLine | kernel/src/console.rs:168-183 | the log gets one more, empty line |
| Vga.Writer.WriteByte | kernel/src/console.rs:132-151 | the screen is the last 25 rows of the log, with the cursor at the end of the last line, before and after every byte |
| Vga.Writer.WriteString | kernel/src/console.rs:153-160 | the same for a string, unprintable bytes shown as blocks |
| Paths.ComputeSplitFirst | kernel/src/fs/inode.rs:217-237 | the loops find the first name and what follows its slashes |
| Paths.SplitsIntoNames | kernel/src/fs/inode.rs:204-237 | splitting again and again yields exactly the non-empty pieces between slashes |
| Paths.JoinSplits | kernel/src/fs/inode.rs:211-237 | names joined with any positive runs of slashes, and any at the ends, are split back |
| Paths.ResolveByParent | kernel/src/fs/inode.rs:239-272 | resolving a path is looking its last name up in the directory that the parent form gives |
| Paths.NameX | kernel/src/fs/inode.rs:239-272 | the loop is the fold of directory lookup over the names, from the root only for exactly "/" |
| Paths.StartRule | kernel/src/fs/inode.rs:239-246 | "/" is the root and has no parent; every other path is walked from the current directory |
| Paths.AbsoluteIffSlash | kernel/src/fs/inode.rs:239-246 | a path that starts with a slash is resolved from the root in every tree if and only if it is "/" |

## Left out

- The scheduler's hand-off, `sched`, `SleepLock` and `SleepMutex`: unfinished in the source.
- Anything that reaches `todo!()`: `free_vm`, `uvm::dealloc`, reading, writing and truncating kernel inodes, `SuperBlock::read`, the first call of `forkret`, whose later plain return is modelled.
- The body of `dir_lookup`: directory lookup is a parameter of the path walk.
- The buffer cache, the inode cache, segment and gate descriptors, the multiprocessor table: they would only add easy members.
- Device registers and ports other than the disk's: the VGA cursor, interrupt controllers and the serial line.
- Mkfs.BuildImage: speaks of at most 206 files and an output file of at most 1000 sectors. With more files, inodes fall on the bitmap and on data blocks, as `ImageBuilder.InodeSectors` and `ImageBuilder.InodeUnderBitmap` show; a longer output file lets blocks past the super block's size be used.
- Weak memory: the lock model is sequentially consistent, and the early boot case without a local APIC, in which locks do nothing, is not modelled.
- Traps for which the processor pushes an error code, and what the handler `trap` does beyond leaving the frame and the stack pointer.
- Opening and reading the host files that mkfs copies: a file is given as the pieces its reads return.
- Exhaustion of the 32-bit process numbers: allocation requires a number below 2^32 to be left.
