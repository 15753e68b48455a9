# A model of the kernel's processes, terminals and file system

This project models three parts of a small x86 kernel and its number printing, and proves what they keep over whole
runs. `dafny verify dfyconfig.toml` checks it.

**Processes, scheduling and memory map.** `Processes` is an ideal machine: three terminal slots, each with a chain of
processes and a parked context, one slot with the processor. Its runs are sequences of ticks, executes, halts, Alt-F
switches and vidmaps. `Kernel` is the class with the kernel's own tables (`PCB[]`, `multi_process_idx`, `all_process`,
page entries, `tss.esp0`, mask bytes), changed in place; its invariant says how the tables represent the machine, and
every call is proved to be the machine's step. Context integrity, last-in first-out halts and the exact condition for
the video page are lemmas about all runs of the machine.

**File system.** `DiskImage` says on values what each call computes, including the block a transfer loop really uses for
each byte. `Contents`, `Ownership`, `Writing`, `Claims` and `Streams` prove what that means: slices, patches, appends,
ownership of blocks, bitmaps equal to the ones a mount would build, and the round trip through chunked writes and reads.
`Limits` proves exactly which reads and writes deliver on every valid disk. `FileSystem` and `Files` are the imperative
code over arrays, descriptors and positions, proved against those functions; `Files.Process.WriteThenRead` is the round
trip through open, file positions and close.

**Terminals.** `Paper` lays the whole output of a terminal out on an endless sheet seen through 24 rows. `Editor` is a
line as text left and right of a cursor, with a bounded command history. `Screen` says what the position fields mean,
`Typing` what every key does to them in every state. `Terminal` is the code over live buffer, command buffer and page.
`Sessions` is a run of the console as a state machine over writes, reads, single keys and switches; `Console` puts three
terminals and four pages together and proves that every read returns the line, and every logical page shows the output,
that the terminal's own actions alone would have produced, on every run in which no access leaves the page or the history
buffer of its terminal; `Sessions.Allowed` says which those are. A cell holding zero counts as showing a space: rows that
scroll in and deleted characters leave zeros behind.

**Numbers.** `itoa`, `strrev` and the padding of `%#x` in a buffer; `Buffers` holds what texts in a buffer share.

## Where the code and its intent differ

But for one address, named below, the model follows the code. Each of these has a lemma or a contract that says exactly
when the code delivers.

- A transfer of several blocks steps to block 1 of the file from wherever it started: `Contents.StraightIff`,
  `Limits.ReadIsSliceIff`, `Limits.WriteDeliversIff`.
- A write that starts inside a file never grows it; what lies past the file's blocks goes to the reserved block 0, and
  the write reports success: `Limits.OverrunWrite`, `Limits.WriteDeliversIff`.
- A write that claims several blocks stores them all in one slot, and its undo loop clears the wrong bits:
  `Claims.BitmapsAgreeIff`, `Limits.GreedyWrite`. A file from the image without a spare block breaks on its first append:
  `Claims.TightFileAppend`.
- `get_inode_by_idx` counts inodes in bytes where read_data and write_data count them in blocks. The two agree if and
  only if the index is 0 (`DiskImage.InodeAddressesAgreeIff`), which is reserved, so that `create_new_file` as written
  never initialises the inode that the new file is read and written through (`Ownership.NewInodeMisaddressed`). As
  written, a creation leaves bitmaps that a mount would build if and only if it fails: `Ownership.CreateAsWrittenIff`, so
  that `CreateKeepsValid` and `BitmapsAreACache` are false of it. Here alone the model does not follow the code:
  `CreateFile`, `CreateNewFile` and `FsInit` take the inode of read_data, and `CreateKeepsValid`, `BitmapsAreACache`,
  `RoundTrip` and `WriteThenRead` are proved for that corrected address only.
- A write that ends at column 80 leaves the row behind: `Screen.EndOfWrite`. A carriage return moves the screen position
  and not the column: `Terminal.WriteOne`.
- Enter counts a row too few or too many for a line that exactly fills its rows, and goes on from the cursor rather than
  from the end of the line: `Screen.EnterTracked`.
- Right is refused when the screen position is the last corner of row 24. A read that starts above the window's lower
  edge never gets there, one that starts below it can: `Typing.LikeTheEditorIff`, `Typing.TroubleBelow`. Enter at once
  below the window leaves row_index at 25, and the next write then stores below the history buffer: `Terminal.NewLine`,
  `Sessions.Allowed`.
- Enter stores a line that does not fit into the history buffer from row_index on over row_index and into the next
  terminal. From a read's start that can happen if and only if it starts in one of the last two rows after a prompt of
  more than 33 characters, scrolled or not: `Typing.HistoryHoldsIff`, `Typing.OverrunningLine`,
  `Sessions.LongLineRefused`.
- A character in the window's last cell wraps the screen position around to the first cell, and Backspace there stores
  before the page. From a read's start that can happen if and only if the longest line reaches the status bar:
  `Typing.NeverLeavesIff`, `Typing.FillingWraps`, `Terminal.Backspace`.
- The cursor keys and Up work without a read in progress, and keys between Enter and the return of the read start the
  next line; a write then drops that line from the live buffer and leaves it on the page: `Sessions.Act`,
  `Console.TypeOn`.
- An empty line after an empty prompt leaves its newline in the store, so that a second read without a write between them
  does not wait: `Terminal.TerminalRead`.
- A full history gives up its oldest command even to an empty line: `Editor.HistoryIsRecent`.
- `sys_vidmap` always maps the visible page: `Processes.VidmapExact`.
- `read_dentry_by_index` accepts every index of an empty directory: `FileSystem.ReadDentryByIndex`. A listing of it then
  shows the names of unused entries: `Files.ListingIsComplete`, `Files.EmptyDirectoryLists`.
- A failed write moves the file position back by one: `Files.FileWrite`.

## Model

| member | source | states |
|---|---|---|
| `Processes.RegionsAreDisjoint` | interrupts/syscalls.c:25-28 | user frames, PCBs and kernel stacks of two processes never overlap, user frames avoid the kernel page, and pids map to page entries and stacks one to one |
| `Processes.RegionsTileMemory` | interrupts/syscalls.c:25-28 | user frames follow each other from 8 MB up and PCB regions from there down without a gap, and a stack top is the last word of its region |
| `Processes.ScreenPagesAreApart` | paging/multi_terminals.h:10-17 | the pages of different slots and the visible page are pairwise apart, and the page of a slot in the background, 0xB9000 and up, does not depend on which other terminal is visible |
| `Processes.ReplaceForest` | interrupts/syscalls.c:247-277 | changing the end of one chain keeps three disjoint chains rooted at 0, 1 and 2, if any pid it adds was free |
| `Processes.PushWf` | interrupts/syscalls.c:247-334 | execute keeps the forest: the new process is the leaf above the caller, on a pid in no chain |
| `Processes.PopWf` | interrupts/syscalls.c:83-151 | halt keeps the forest |
| `Processes.Settle` | scheduler/scheduler.c:127-138 | resuming a context saved inside the first switch to the default terminal passes the processor on; this moves no chain and no saved context |
| `Processes.ExecLaw` | interrupts/syscalls.c:180-335 | an execute of a file that cannot be loaded, or without a free pid, changes nothing; any other adds one process on the least free pid to the running chain, resuming at this execute, and changes nothing else |
| `Processes.HaltLaw` | interrupts/syscalls.c:78-170 | a halt changes the running chain only: a child goes, a root is replaced by one of its own pid that starts at this halt |
| `Processes.AltFLaw` | devices/keyboard.c:505-527 | Alt-F does nothing while the running slot is not the visible one, or for the terminal shown; otherwise that terminal is shown and gets the processor |
| `Processes.TickLaw` | scheduler/scheduler.c:127-138 | a tick before the terminals are settled shows the first terminal; any other leaves the visible one and gives the processor to the next slot |
| `Processes.VisibleIs` | scheduler/scheduler.c:127-138 | exactly which terminal is visible after any step |
| `Processes.VisibleOverRuns` | devices/keyboard.c:107-115 | over every run the visible terminal changes only if there is a tick before the terminals are settled, or an Alt-F while the visible slot runs |
| `Processes.StepElsewhere` | scheduler/scheduler.c:33-93 | no step touches the processes or the saved context of a slot that does not have the processor |
| `Processes.SwitchKeeps` | scheduler/scheduler.c:34-41 | a context switch saves the interrupted entry for the slot that was running, on its leaf's kernel stack, and nothing for any other |
| `Processes.ContextIntegrity` | scheduler/scheduler.c:33-93 | over every run: a slot gets back exactly the context that the step which took the processor away saved, on the stack of the process interrupted, which is still the leaf of the same chain |
| `Processes.RunPrefix` | interrupts/syscalls.c:83-151 | as long as a slot stays deeper than d processes, its first d+1 processes and the contexts saved for them do not change |
| `Processes.LastInFirstOut` | interrupts/syscalls.c:158-164 | whatever happened meanwhile on any terminal, halting a child resumes at the context its own execute saved and leaves the slot the processes it had before |
| `Processes.VidmapEntry` | interrupts/syscalls.c:540-559 | a granted vidmap maps the visible page whichever slot runs, a switch the page of the slot that gets the processor, and nothing else changes the entry |
| `Processes.VidmapExact` | scheduler/scheduler.c:43-55 | for every step: the video page names the running slot's screen afterwards if and only if the step was a switch, or a granted vidmap while the running slot is visible, or it did before |
| `Processes.RoundRobin` | scheduler/scheduler.c:135-137 | after the boot contexts are gone, n ticks give the processor to slot (t + n) mod 3 |
| `Processes.BootSettles` | scheduler/scheduler.c:127-138 | three ticks after the third shell show terminal 0 and leave no half-done switch |
| `Processes.ParentAboveChild` | interrupts/syscalls.c:240-242 | a run in which pid 3 is the child of pid 4: the root walk cannot rely on the order of pids |
| `Kernel.ClearBit` | i8259.c:40-53 | clearing a mask bit unmasks that line and no other |
| `Kernel.SetBit` | i8259.c:55-68 | setting a mask bit masks that line and no other |
| `Kernel.ReplaceFirstAt` | interrupts/syscalls.c:326-333 | replacing the first occurrence changes exactly one place, or none |
| `Kernel.ChainIsAncestry` | interrupts/syscalls.c:240-242 | following parent links from the running leaf gives its chain, root last |
| `Kernel.SpawnIsExec` | interrupts/syscalls.c:247-335 | the tables execute leaves are those of the least free pid with the caller as parent, filed under the caller's slot and terminal |
| `Kernel.ExecRepresents` | interrupts/syscalls.c:247-335 | the tables after an execute represent the machine with one more process |
| `Kernel.PopRepresents` | interrupts/syscalls.c:106-151 | the tables after a halt represent the machine with one process less |
| `Kernel.LeafAndParent` | interrupts/syscalls.c:106-151 | the halting process's parent link, saved context and slot entry are those of its chain |
| `Kernel.SpawnIsRespawn` | interrupts/syscalls.c:83-103 | with a root marked free, execute from pid 0 finds that very root again and files it where it was: a root shell that halts comes back with its own pid |
| `Kernel.RespawnRepresents` | interrupts/syscalls.c:83-103 | the tables after a root's respawn represent the same chains |
| `Kernel.BootRepresents` | scheduler/scheduler.c:101-126 | the tables of three booted shells represent three chains of one process |
| `Kernel.BootSpawn` | scheduler/scheduler.c:101-126 | a boot tick parks the last shell and starts the next with the tick's number as pid |
| `Kernel.OutcomeLaw` | interrupts/syscalls.c:180-335 | a call that returns to its caller has changed nothing but the video entry; an entered program is the running leaf on a free pid; a switch restores what is parked; a resumed creator gets its slot back |
| `Kernel.OutcomesSnoc` | scheduler/scheduler.c:99-141 | the outcomes of a longer run are those of the shorter one and then the outcome of the last event in the state reached |
| `Kernel.LastOutcome` | scheduler/scheduler.c:90-93 | the event that gives a slot the processor back restores the very context parked for that slot |
| `Kernel.RestoredIsSaved` | scheduler/scheduler.c:33-93 | over every run: the context restored when an interrupted slot gets the processor back, as the call hands it over, is the one the interrupting event saved |
| `Kernel.HaltResumesExecute` | interrupts/syscalls.c:105-170 | over every run: execute enters the least free pid, and the halt of that child resumes at that very execute, with the status as its result |
| `Kernel.Kernel.constructor` | scheduler/scheduler.c:21-26 | the kernel before the first tick |
| `Kernel.Kernel.EnableIrq` | i8259.c:40-53 | exactly that line is unmasked, in the mask that holds it |
| `Kernel.Kernel.DisableIrq` | i8259.c:55-68 | exactly that line is masked |
| `Kernel.Kernel.GateKeyboard` | scheduler/scheduler.c:72-82 | keyboard_disabled, the keyboard's mask bit and "slot is not visible" are the same afterwards; no other line changes |
| `Kernel.Kernel.SaveContext` | scheduler/scheduler.c:34-40 | the context is saved in the record of the running slot's leaf |
| `Kernel.Kernel.LoadSlot` | scheduler/scheduler.c:41-82 | pid, video page, user page, kernel stack and keyboard gate all belong to the new slot's leaf; the video entry is 0xB8007 for the visible slot and 0xB9007 and up, a page a slot, for the others |
| `Kernel.Kernel.Install` | scheduler/scheduler.c:33-93 | a context switch is the machine's Park step, and restores the context parked for the new slot |
| `Kernel.Kernel.ProcessContextSwitch` | scheduler/scheduler.c:33-93 | Park, and then what the code at the restored context goes on to do |
| `Kernel.Kernel.PassOn` | scheduler/scheduler.c:131-138 | the end of scheduler_step: terminals settled, next slot's turn |
| `Kernel.Kernel.TerminalSwitch` | devices/keyboard.c:505-527 | without switching processes only current_term changes; otherwise the slot shown gets the processor |
| `Kernel.Kernel.KeyboardSwitch` | devices/keyboard.c:107-115 | Alt-F changes nothing while the keyboard line is masked or for the terminal shown; otherwise it is AltFStep and shows that terminal |
| `Kernel.Kernel.ReplaceSlot` | interrupts/syscalls.c:326-333 | the first slot entry with this pid is replaced, no other |
| `Kernel.Kernel.Spawn` | interrupts/syscalls.c:235-335 | the root walk ends at the root of the line of ancestors; the least free pid becomes a child, or nothing changes |
| `Kernel.Kernel.SpawnChild` | interrupts/syscalls.c:235-335 | for the running leaf this is the machine's execute step |
| `Kernel.Kernel.SysExecute` | interrupts/syscalls.c:180-335 | execute refines ExecStep, with its three results; a result returned to the caller, -1 or 0, means that no table, page or pid has changed |
| `Kernel.Kernel.HaltRoot` | interrupts/syscalls.c:83-103 | halting a root refines HaltStep |
| `Kernel.Kernel.ReturnToParent` | interrupts/syscalls.c:105-164 | user page, kernel stack, slot entry and pid go back to the parent; the context restored is the one saved in the child's PCB |
| `Kernel.Kernel.HaltChild` | interrupts/syscalls.c:105-164 | halting a child refines HaltStep and resumes at the context of its creation |
| `Kernel.Kernel.SysHalt` | interrupts/syscalls.c:78-170 | halt refines HaltStep; execute returns the status, or 256 after an exception |
| `Kernel.Kernel.SysHaltWrapper` | interrupts/syscalls.c:62-68 | the status is cut to 8 bits, except for the exception status |
| `Kernel.Kernel.BootTick` | scheduler/scheduler.c:101-126 | each of the first three ticks starts one root shell; after the third the invariant of the running kernel holds |
| `Kernel.Kernel.SchedulerStep` | scheduler/scheduler.c:99-141 | a tick refines TickStep, and a boot tick before that |
| `Kernel.Kernel.SysVidmap` | interrupts/syscalls.c:540-559 | vidmap maps the visible page, whichever slot runs, if the address is in the user image, and fails and changes nothing otherwise; it refines VidmapStep |
| `Kernel.Kernel.Handle` | scheduler/scheduler.c:99-141 | every event is the machine's step, and the processor goes on as OutcomeOf says: in a fresh program, at the context parked for the slot that gets it, at the execute that created a halting child, or at the caller |
| `Kernel.Kernel.HandleAll` | scheduler/scheduler.c:99-141 | over every run after boot the tables represent the machine: three chains, their leaves, terminals, page entries, esp0 and keyboard gate; and the contexts restored and values returned on the way are the machine's |
| `DiskImage.Moved` | fs/fs.c:165-190 | the count of bytes the transfer loop moves: up to the first byte whose block index is bad |
| `DiskImage.PokeLast` | fs/fs.c:275-300 | a transfer into blocks, byte by byte, ends with its last byte |
| `DiskImage.PokeChunk` | fs/fs.c:275-285 | a memcpy into one block is that many single bytes |
| `DiskImage.ReadCount` | fs/fs.c:125-192 | the result of read_data is at most what the file holds from the offset on: 0 at or past the end, -1 exactly for a bad inode or a bad first block |
| `DiskImage.Claim` | fs/fs.c:232-249 | claims keep the shape of the disk and change only one inode's block list and the data bitmap |
| `DiskImage.BlockCountsWrap` | fs/fs.c:220-228 | block counts are 16 bits wide: what is claimed makes up the new count, which wraps around |
| `DiskImage.Rollback` | fs/fs.c:236-240 | the undo loop changes nothing but bitmap bits |
| `DiskImage.WriteData` | fs/fs.c:206-303 | write_data keeps the shape of the disk, and fails without a change for a bad inode |
| `DiskImage.Lookup` | fs/fs.c:57-93 | the first directory entry with exactly this name, or the entry count |
| `DiskImage.CreateFile` | fs/fs.c:376-419 | create_new_file keeps the shape of the disk |
| `DiskImage.InodeAddressesAgreeIff` | fs/fs.c:326-333 | get_inode_by_idx and the index arithmetic of read_data and write_data name the same inode if and only if the index is 0 |
| `Contents.StraightIff` | fs/fs.c:181 | the transfer loops address the block each byte belongs to if and only if the transfer stays in one block or starts in block 0 |
| `Contents.LoopPath` | fs/fs.c:165-190 | the blocks a transfer really goes through: the one it starts in, then block 1, 2, ... of the file |
| `Contents.ReadIsSlice` | fs/fs.c:138-192 | a straight read returns min(length, file_length - offset) and exactly that slice of the file |
| `Contents.PokeFrame` | fs/fs.c:285 | a block the loop does not write keeps its bytes |
| `Contents.PokeByte` | fs/fs.c:275-300 | a straight write changes just the bytes at the offset |
| `Ownership.ValidAgrees` | fs/fs.c:18-47 | the bitmaps of a valid disk are the ones a mount would build |
| `Ownership.CreateKeepsValid` | fs/fs.c:376-419 | a new file gets a fresh inode and one fresh marked block, is found by its name with that inode, and nothing else changes; on failure nothing changes at all |
| `Ownership.NewInodeMisaddressed` | fs/fs.c:413-415 | the inode that create_new_file claims has an index above 0, so the address it takes for it is that of no inode at all |
| `Ownership.CreateAsWrittenIff` | fs/fs.c:376-419 | create_new_file as written, whatever its stores make of inode 0: if it succeeds the file has a name and an inode that is as it was, and its block is marked and in no list; so the bitmaps are those of a mount, and the disk is valid, if and only if the call fails |
| `Ownership.BlocksBounded` | fs/fs.c:340-350 | no file has more blocks than the disk |
| `Ownership.LengthBounded` | fs/fs.c:220-221 | no file is longer than the disk |
| `Writing.GrowMeaning` | fs/fs.c:224-255 | making room for at most one more block either fails and changes nothing or adds one free block at the end of the list and sets the length |
| `Writing.GrownValid` | fs/fs.c:224-255 | making room keeps names and inodes unique, blocks owned once and the bitmaps right |
| `Writing.PokedOther` | fs/fs.c:275-300 | writing to one file does not touch the bytes of another |
| `Writing.WriteIsPoked` | fs/fs.c:206-303 | a fitting write makes room and then writes every byte, or does nothing |
| `Writing.WriteMeaning` | fs/fs.c:206-303 | a fitting write fails only for want of a block and then changes nothing; otherwise the file has the new bytes at the offset, every other byte and length is as before, and the disk is valid |
| `Writing.AppendMeaning` | fs/fs.c:224-303 | a write at the end of a file concatenates |
| `Claims.ClaimMarks` | fs/fs.c:232-249 | successful claims keep every mark and leave a formerly free block in the slot |
| `Claims.ClaimCounts` | fs/fs.c:231-252 | successful claims take exactly as many free blocks as were asked for |
| `Claims.RollbackUnmarks` | fs/fs.c:236-240 | the undo loop unmarks exactly the file's blocks in the slots before the one claimed into |
| `Claims.ClaimUnmarks` | fs/fs.c:236-240 | claims that fail after the first one unmark the file's own last block |
| `Claims.FirstClaimLeaks` | fs/fs.c:248 | of several claimed blocks the first is marked, and no newly marked block but the last is one that a mount finds in a list, so the bitmaps disagree |
| `Claims.SeveralClaimsDisagree` | fs/fs.c:232-249 | a write that asks for several blocks leaves bitmaps that a mount would not build |
| `Claims.BitmapsAgreeIff` | fs/fs.c:224-255 | the bitmaps after a write at or past the end agree with a mount if and only if it asks for at most one block or no block is free |
| `Claims.TightFileAppend` | fs/fs.c:220 | an append inside the counted blocks always reports success, and keeps the disk valid if and only if the file has the last block counted; files from the image may lack it, empty ones included |
| `Claims.WriteKeepsValid` | fs/fs.c:206-303 | a write that asks for at most one block keeps every invariant of the disk and the file laid out as length / 4096 + 1 blocks |
| `Claims.BitmapsAreACache` | fs/fs.c:18-47 | after any run of creations and of writes that ask for at most one block, failures included: no file is lost, files created on the way and files well laid out at the start have exactly length / 4096 + 1 blocks, names are unique, no block has two owners, and mounting again would rebuild the very same bitmaps |
| `Claims.CreateLaidOut` | fs/fs.c:376-419 | a file created in a run starts with exactly one block, and the others stay laid out |
| `Claims.WriteLaidOut` | fs/fs.c:206-303 | a write keeps all files laid out, whether it fails or not |
| `Limits.SampleValid` | fs/fs.c:18-47 | the disk used as the failing input is one that a mount accepts |
| `Limits.ReadIsSliceIff` | fs/fs.c:181 | a read of this offset and length is the slice on every valid disk with a file of this length if and only if the part of the transfer inside the file is straight |
| `Limits.OverrunWrite` | fs/fs.c:224 | a write that starts inside a file and runs past its blocks never grows the file: on a valid disk it reports success and puts the rest in the reserved block 0 |
| `Limits.CrookedInside` | fs/fs.c:294-300 | a write inside a file that crosses from a later block than the first into the next does not deliver: on a valid disk it changes a byte outside its range |
| `Limits.CrookedAppend` | fs/fs.c:294-300 | nor does such a write past the end: on a valid disk a byte of the buffer is not where it belongs |
| `Limits.GreedyWrite` | fs/fs.c:232-249 | nor does a write that asks for several blocks, on a valid disk that has blocks to spare |
| `Limits.HopelessFails` | fs/fs.c:232-249 | a file of 58 blocks leaves none free, so a growing write fails and changes nothing |
| `Limits.WriteDeliversIff` | fs/fs.c:206-303 | a write delivers on every valid disk with a file of this length, laid out by the kernel, if and only if it fits or no such disk has a block for it |
| `Streams.ReadChunksIsSlice` | fs/file.c:30-37 | file_read in chunks yields the file from a position on, and then nothing |
| `Streams.WholeLoadIsChunks` | interrupts/syscalls.c:297-299 | the single whole-file load of execute reads the bytes that chunked reads read |
| `Streams.AppendOne` | fs/file.c:15-20 | one more chunk at the end of the file, or no change for want of a block |
| `Streams.AppendAll` | fs/file.c:15-20 | appending stops at the first failure with exactly the chunks before it in the file |
| `Streams.RoundTrip` | fs/file.c:15-37 | create a file, append chunks, read back with another chunk size, both dividing 4096: the concatenation of what was written, and then nothing |
| `Streams.OthersKept` | fs/file.c:15-20 | creating and filling a file leaves the content of every other file alone |
| `Streams.RestStep` | fs/file.c:15-20 | one write at the end of the file takes the run of appends one step on, or ends it |
| `Streams.ReadChunksSnoc` | fs/file.c:30-37 | one read more at the position reached adds the next chunk |
| `FileSystem.FileSystem.ClaimFreeDataBlock` | fs/fs.c:340-350 | the least free block is marked and returned, or -1 |
| `FileSystem.FileSystem.ClaimFreeInodeBlock` | fs/fs.c:357-367 | the least free inode below the number of data blocks is marked and returned, or -1 |
| `FileSystem.FileSystem.ReadDentryByName` | fs/fs.c:57-93 | the index of the first exact match; never a name of more than 32 characters |
| `FileSystem.FileSystem.SameName` | fs/fs.c:69-83 | the character loop decides equality of names |
| `FileSystem.FileSystem.ReadDentryByIndex` | fs/fs.c:103-113 | the entry at an index below the count; every index if the directory is empty, because the bound wraps around |
| `FileSystem.FileSystem.CopyOut` | fs/fs.c:165-192 | the block-wise loop copies the bytes that Peek names |
| `FileSystem.FileSystem.ReadData` | fs/fs.c:125-193 | refines ReadCount and ReadBytes and changes nothing else in the buffer |
| `FileSystem.FileSystem.UnclaimBlocks` | fs/fs.c:236-240 | refines Rollback |
| `FileSystem.FileSystem.ClaimBlocks` | fs/fs.c:231-252 | refines Claim |
| `FileSystem.FileSystem.GrowFile` | fs/fs.c:220-255 | refines Grow, including its failure |
| `FileSystem.FileSystem.CopyIn` | fs/fs.c:275-302 | the block-wise loop writes the bytes that Poke names |
| `FileSystem.FileSystem.WriteData` | fs/fs.c:206-303 | refines WriteData: new disk and result |
| `FileSystem.FileSystem.CopyFileName` | fs/fs.c:398-408 | the name and its terminator go over the start of the entry's field |
| `FileSystem.FileSystem.CreateNewFile` | fs/fs.c:376-419 | refines CreateFile, including both failures |
| `FileSystem.FileSystem.FsInit` | fs/fs.c:18-47 | afterwards each bitmap holds exactly what the directory and the block lists name |
| `Files.Process.FileRead` | fs/file.c:30-37 | the read at the position, and the position moved on by the result |
| `Files.Process.FileWrite` | fs/file.c:15-20 | the write at the position, and the position moved by the result, -1 included |
| `Files.Process.DirRead` | fs/directory.c:25-60 | the name at the position, or nothing, and in an empty directory the unused entries; the position moves on by one either way |
| `Files.Process.SysRead` | interrupts/syscalls.c:376-385 | standard output and closed descriptors, and numbers that are none, fail and change nothing; the driver of an open one gets the call |
| `Files.Process.SysWrite` | interrupts/syscalls.c:396-405 | standard input, closed descriptors, numbers that are none, and directories fail and change nothing; files are written |
| `Files.Process.FillDescriptor` | interrupts/syscalls.c:441-466 | the first free descriptor from 2 on is filled, or -1: by the kind of the entry with the RTC at 2 Hz, the directory from its first entry or the file from its first byte |
| `Files.Process.SysOpen` | interrupts/syscalls.c:415-467 | creates only on a miss, keeps the disk valid, and opens the entry found or created with the driver, position and flag of its kind |
| `Files.Process.SysClose` | interrupts/syscalls.c:476-487 | an open descriptor from 2 on is cleared, anything else is -1 and no change |
| `Files.Process.CloseAll` | interrupts/syscalls.c:109-115 | halt leaves no file open and standard input and output as they are |
| `Files.Process.ListNames` | fs/directory.c:25-60 | n reads through a descriptor return what DirNames says, and the position is n |
| `Files.Process.ListDirectory` | interrupts/syscalls.c:415-487 | open a directory by name, list it and close it: the names are those of DirNames, and the disk is untouched |
| `Files.Process.AppendChunks` | fs/file.c:15-20 | writes through a descriptor that stands at the end of its file: the position stays at the end of the file, and the disk is that of AppendAll; a failure takes the position one back |
| `Files.Process.ReadAll` | fs/file.c:30-37 | reads through a descriptor return what ReadChunks says, and the position moves on by their length |
| `Files.Process.WriteFile` | interrupts/syscalls.c:396-487 | open a new name, write chunks, close: the disk of WriteNew, and a free descriptor again |
| `Files.Process.ReadFile` | interrupts/syscalls.c:376-487 | open a file, read it from the start, close: the disk is untouched |
| `Files.Process.WriteThenRead` | interrupts/syscalls.c:376-487 | end to end through descriptors and positions: what was written to a new file before the disk was full comes back in order, the disk stays valid, and every other file keeps its content |
| `Files.ListingIsComplete` | fs/directory.c:25-60 | reading a valid directory from the start returns every name once, in order; afterwards the results are empty if and only if the directory is not, or the unused entries read have no names |
| `Files.ListedIffFound` | fs/directory.c:25-60 | in a directory in use a name can be looked up if and only if it is listed |
| `Files.EmptyDirectoryLists` | fs/fs.c:103-113 | of an empty directory the names of unused entries are listed, and none can be looked up |
| `Paper.WindowScrolls` | devices/keyboard.c:474-480 | scrolling the page shows the sheet one row further down |
| `Paper.WindowPrints` | lib.c:310-313 | a character printed in the next cell is on the sheet's next cell |
| `Paper.WindowInserts` | devices/keyboard.c:735-743 | shifting the rest of the line on the page and printing inserts the character on the sheet |
| `Paper.WindowDeletes` | devices/keyboard.c:647-656 | shifting back and clearing the last cell deletes the character from the sheet |
| `Paper.RenderText` | lib.c:306-317 | text without a newline goes onto the sheet as it is |
| `Paper.RenderBreak` | devices/terminal.c:246-252 | a newline adds blanks up to the start of the next row, a whole row of them at the start of one |
| `Paper.TopIsLazy` | devices/terminal.c:186-194 | the window moves down by as little as shows the cell just printed |
| `Screen.NextTracked` | devices/terminal.c:246-258 | after a character or a newline, row, column, cursor and screen position name the sheet's next cell again |
| `Screen.EndOfWrite` | devices/terminal.c:264-266 | after terminal_write they do if and only if the output does not fill its last row exactly |
| `Screen.InsertDrawn` | devices/keyboard.c:735-749 | typing in the middle of a line keeps page, cursor and screen position in agreement with the line |
| `Screen.DeleteDrawn` | devices/keyboard.c:629-663 | so does Backspace, across the edge of a row too |
| `Screen.EnterTracked` | devices/keyboard.c:583-614 | after Enter the typed line is part of the output, and the fields agree with it if and only if the line with its prompt is shorter than a row, or its cursor is in a second row that is not full |
| `Screen.ClearedDrawn` | devices/keyboard.c:553-562 | after Ctrl-L prompt and line are all there is, at the top of the page |
| `Typing.PressedInReach` | devices/keyboard.c:261-751 | from a state in reach no key is refused, whether the line is on the page or not: the key has the editor's effect and leads to a state in reach |
| `Typing.PlayIsType` | devices/keyboard.c:261-751 | so any sequence of keys has exactly the editor's effect |
| `Typing.TroubleBelow` | devices/keyboard.c:305 | below the window it has not: after 80 characters and Left, Right is refused, and the next character lands before the last one |
| `Typing.LikeTheEditorIff` | devices/keyboard.c:305 | all key sequences have the editor's effect on a read if and only if it starts above the window's lower edge |
| `Typing.HistoryStoresIff` | devices/keyboard.c:576-581 | the stores of new_line stay inside the history buffer if and only if the line fits into it from row_index on; every drawn line does, and every line of at most 160 characters in reach |
| `Typing.OverrunningLine` | devices/keyboard.c:576-581 | a read from one of the last two rows, a prompt of more than 33 characters and 127 typed: Enter stores past the history buffer |
| `Typing.HistoryHoldsIff` | devices/keyboard.c:576-581 | from a read's start no keys lead to such an Enter if and only if it starts above the last two rows or after a prompt of at most 33 characters |
| `Typing.PlayRowed` | devices/keyboard.c:674-751 | no key moves the line down the page, refused or not, and in row 23 the line has at most 80 characters |
| `Typing.PrintsOnPage` | devices/keyboard.c:725-743 | typing touches no cell outside the page, and keeps the position on the screen |
| `Typing.DeletesOnPage` | devices/keyboard.c:638-656 | so does Backspace, except in the first cell |
| `Typing.PressedOnScreen` | devices/keyboard.c:232-391 | every key keeps the position on the screen, except for going back past the first cell |
| `Typing.FillingWraps` | lib.c:315 | once the last cell above the status bar is filled the position is the first cell, and Backspace goes back past it |
| `Typing.PressedAligned` | devices/keyboard.c:232-391 | where the longest line ends above the status bar, every key keeps cursor and screen position where the text left of them ends |
| `Typing.NeverLeavesIff` | devices/keyboard.c:638-656 | from a read's start no key goes back past the page's first cell if and only if the longest line from there ends above the status bar |
| `Editor.LineBounded` | devices/keyboard.c:724 | no sequence of keys makes the line longer than 127 characters, and only typed characters, blanks and recalled commands get into it |
| `Editor.Undone` | devices/keyboard.c:625-751 | Backspace undoes a character; Left and Right undo each other |
| `Editor.PressLaw` | devices/keyboard.c:625-751 | a character goes in at the cursor up to the 127th; Backspace, Left and Right do nothing at the line's ends |
| `Editor.TabIsBlanks` | devices/keyboard.c:674-709 | Tab types four blanks if there is room for all of them, or none |
| `Editor.UpLaw` | devices/keyboard.c:347-391 | Up goes one row back and puts as much of its command as has room in place of the text left of the cursor |
| `Editor.MovesKeepText` | devices/keyboard.c:261-312 | moving the cursor does not change the line |
| `Editor.HistoryIsRecent` | devices/terminal.c:125-143 | after any reads the history is the last 20 commands in order, or the last 19 after an empty line |
| `Editor.UpRecalls` | devices/keyboard.c:372-390 | from the newest row, the k-th Up brings the k-th most recent command and leaves the text right of the cursor alone |
| `Editor.ScrollHolds` | devices/keyboard.c:321-338 | scrolling the command buffer forgets exactly the oldest command |
| `Editor.WriteHolds` | devices/terminal.c:130-143 | writing a line into the first free row remembers it, zero-terminated |
| `Terminal.Terminal.constructor` | devices/terminal_structs.h:26-51 | static storage: an empty history |
| `Terminal.Terminal.TerminalInit` | devices/terminal.c:11-35 | a blank page, an empty output, and all fields in agreement with it |
| `Terminal.Terminal.ReadStartsDrawn` | devices/terminal.c:87-117 | after any write a read starts with everything on the page, unless the next row is below the window |
| `Terminal.Terminal.ReadIsEditorIff` | devices/terminal.c:87-117 | a read after a write has the editor's effect for all keys if and only if row_index is above the window's lower edge |
| `Terminal.Terminal.ReadIsEditor` | devices/terminal.c:87-117 | a read in reach has the editor's effect for all keys, whether the page is in order or not |
| `Terminal.Terminal.ReadStartsInReach` | devices/terminal.c:87-117 | after a write, above the window's lower edge, a read is in reach |
| `Terminal.Terminal.ReadStartsAligned` | devices/terminal.c:87-117 | it is aligned if and only if there is room for 127 characters above the status bar |
| `Terminal.Terminal.ScreenMirrorsLine` | devices/keyboard.c:537-751 | while the line is drawn, cell 80 * row + i of the page looks like cell i of the live buffer, and cursor and screen position name the editing position |
| `Terminal.Terminal.AnyLineFits` | devices/keyboard.c:724 | a line with room for 127 characters above the status bar fits on the page whatever is typed |
| `Terminal.Terminal.ClearMulti` | lib.c:33-41 | 24 blank rows; the rest of the page is untouched |
| `Terminal.Terminal.SetcMulti` | lib.c:323-326 | one cell, and whether it is one of the page's |
| `Terminal.Terminal.PutcMulti` | lib.c:306-317 | the cell at the screen position and the next position, wrapping at 80 columns and 24 rows, for any starting position; and whether the cell is one of the page's |
| `Terminal.Terminal.TerminalScroll` | devices/keyboard.c:456-494 | the page scrolled up a row, and row, position and cursor set to its last row |
| `Terminal.Terminal.MakeRoom` | devices/terminal.c:186-194 | wraps a full row and scrolls if the next cell is below the window |
| `Terminal.Terminal.WriteParser` | devices/terminal.c:169-202 | the character is on the sheet's next cell and in range in the history buffer |
| `Terminal.Terminal.WriteOne` | devices/terminal.c:233-259 | one round of the loop keeps all fields in agreement, and moves the position as Writes says in every state; a carriage return puts the screen position out of step unless it comes in column 80 |
| `Terminal.Terminal.TerminalWrite` | devices/terminal.c:212-274 | over all writes the page shows the rows of the whole output from the lazily advanced top row on; agreement afterwards if and only if the output does not fill its last row; in every state the position and the row in the live buffer are those of WritesAll and NextPrompt, and from a position on the screen no access leaves the page or the history buffer |
| `Terminal.Terminal.ShiftTail` | devices/keyboard.c:735-739 | the tail of the line moves one cell to the right in the live buffer and on the page |
| `Terminal.Terminal.InsertChar` | devices/keyboard.c:735-749 | live buffer and page get the character at the cursor |
| `Terminal.Terminal.ScrollForLine` | devices/keyboard.c:725-733 | scrolls exactly when the line is about to run below row 23, and never while it fits on the page |
| `Terminal.Terminal.PrintTyped` | devices/keyboard.c:725-743 | scrolls if need be and types the character: line, position and page, and no access outside the page from a position on it |
| `Terminal.Terminal.OutputChar` | devices/keyboard.c:719-751 | refines the editor's character key, up to 127 characters after the prompt, and keeps the page in agreement while the line fits |
| `Terminal.Terminal.Tab` | devices/keyboard.c:674-709 | refines the editor's Tab: four blanks or none |
| `Terminal.Terminal.PullTail` | devices/keyboard.c:648-651 | the tail moves one cell to the left in the live buffer and on the page |
| `Terminal.Terminal.EraseChar` | devices/keyboard.c:629-657 | the character before the cursor is gone from both |
| `Terminal.Terminal.Backspace` | devices/keyboard.c:625-664 | refines the editor's Backspace; the prompt is never deleted; from a position on the screen it leaves the page in the first cell, at the end of the line, and nowhere but in the first cell |
| `Terminal.Terminal.CursorLeft` | devices/keyboard.c:261-282 | refines the editor's Left; the cursor never enters the prompt |
| `Terminal.Terminal.CursorRight` | devices/keyboard.c:291-312 | refines the editor's Right except in the screen's last corner, where it is refused; PressedInReach shows that no line of a read above the window's lower edge gets there |
| `Terminal.Terminal.PrintLive` | devices/keyboard.c:553-560 | reprints the live buffer at the top of the page |
| `Terminal.Terminal.BufferClear` | devices/keyboard.c:537-564 | refines Ctrl-L and puts page and fields in agreement, whatever state they were in, without an access outside the page |
| `Terminal.Terminal.EraseLine` | devices/keyboard.c:376-378 | 128 backspaces delete everything left of the cursor and nothing else |
| `Terminal.Terminal.TypeRow` | devices/keyboard.c:380-389 | types a command of the history as far as there is room |
| `Terminal.Terminal.PrevCommand` | devices/keyboard.c:347-391 | refines the editor's Up |
| `Terminal.Terminal.StoreLine` | devices/keyboard.c:587-599 | prompt and line go to the store with a newline behind them; the live buffer is cleared and the line empty again |
| `Terminal.Terminal.KeepHistory` | devices/keyboard.c:576-581 | the live buffer is in the history buffer from row_index on, and the rest of it is as before; an access leaves the buffer if and only if the line does not fit into it |
| `Terminal.Terminal.NewLine` | devices/keyboard.c:574-615 | the page does not change, the line counts as output, and the fields agree with it exactly in the cases of EnterTracked; an access leaves the history buffer if and only if the line does not fit, and if none does, row and position are those of Enters |
| `Terminal.Terminal.PressKey` | devices/keyboard.c:232-252 | in every state a key does to the line and to the position fields exactly what Pressed says; a line that fits stays drawn, Ctrl-L draws any line, keys with nothing to do change nothing, and a key that stays on the screen touches no cell outside the page |
| `Terminal.Terminal.KeyDown` | devices/keyboard.c:232-252 | without a read in progress all keys but Left, Right and Up change nothing; these always, and the others during a read, are PressKey |
| `Terminal.Terminal.EnterDown` | devices/keyboard.c:232-239 | without a read in progress Enter changes nothing; otherwise NewLine, with row and position stated when the line fits into the history buffer |
| `Terminal.Terminal.CommandBufferScroll` | devices/keyboard.c:321-338 | all 20 rows of the command buffer move up and the last is cleared |
| `Terminal.Terminal.CopyLine` | devices/terminal.c:130-139 | the line without the prompt goes to the caller's buffer and to the row of the command buffer |
| `Terminal.Terminal.WaitForLine` | devices/terminal.c:108-121 | the busy wait ends with the line that the keys have made, from the state it began in, in the store; a newline left over from an empty line ends it at once |
| `Terminal.Terminal.TakeLine` | devices/terminal.c:122-154 | the caller gets the line and a newline, and the history remembers it |
| `Terminal.Terminal.BeginRead` | devices/terminal.c:108-117 | the flag is set before the length is checked, and the length of the prompt is kept |
| `Terminal.Terminal.EndRead` | devices/terminal.c:122-154 | the line and a newline go to the caller, the history remembers the line, the store is empty again |
| `Terminal.Terminal.ReadLine` | devices/terminal.c:119-154 | for every key sequence and every starting state the caller gets the line that the keys make of it, without the prompt |
| `Terminal.Terminal.TerminalRead` | devices/terminal.c:87-155 | end to end, for every key sequence: a read in reach, as after a write above the window's lower edge, gives the caller exactly the abstract editor's line and a newline, never the prompt, whether the line stays on the page or not; if it fits, the page shows the whole output with the line in it, and stays in agreement exactly in the cases of EnterTracked; if it fits, or there is room for the longest line, no access leaves the page or the history buffer |
| `Sessions.KeysArePlayed` | devices/keyboard.c:232-252 | while a read waits, any keys work on line and position as played, in every state |
| `Sessions.IdleKeys` | devices/keyboard.c:229-252 | while nobody reads, characters, Tab, Backspace, Ctrl-L and Enter leave the session as it was; the three cursor keys work |
| `Sessions.KeysAreTyped` | devices/keyboard.c:232-252 | while a read in reach waits, any keys have the editor's effect on the line |
| `Sessions.LongLineRefused` | devices/keyboard.c:576-581 | the failing input: a prompt of more than 33 characters in one of the last two rows and 127 typed; Enter would store over row_index and then into the next terminal, and is not allowed |
| `Sessions.ReadReturnsTheLine` | devices/terminal.c:87-155 | a read that begins in reach, keys, Enter, and the return: the process gets the editor's line |
| `Sessions.TerminalsAreSeparate` | devices/keyboard.c:505-527 | over any interleaving of writes, reads, single keys and switches, in the middle of lines too, each terminal of the machine ends as if its own actions had been the only ones; DoAll shows that the code does what the machine does on the runs in which no access leaves a terminal's own memory |
| `Sessions.ReadAmongOthers` | devices/keyboard.c:505-527 | so a read in reach gets the editor's line of its own terminal's keys, whatever happens in between elsewhere |
| `Sessions.StepLines` | devices/terminal.c:122-154 | only the return of a read adds to a terminal's lines |
| `Console.ReachIff` | devices/terminal.c:87-117 | after a write that leaves the page in order a read is in reach if and only if the next row is not below the window |
| `Console.KeyReaches` | devices/keyboard.c:232-391 | a key in reach that stays on the screen leads to a line in reach and a position on the screen; so does Ctrl-L from anywhere |
| `Console.KeyWorks` | devices/keyboard.c:232-252 | what a key is to the session it is to the terminal: the line, the editing position, whether the page still shows it, and that no cell outside the page is touched |
| `Console.EnterReaches` | devices/keyboard.c:583-586 | for a line that fits into the history buffer, Enter leaves the position on the screen and row_index in range |
| `Console.WriteOn` | devices/terminal.c:212-274 | a write of one terminal to its logical page, any text unless the row is below the history buffer, is the session's write and touches nothing but the terminal's own memory |
| `Console.BeginOn` | devices/terminal.c:108-121 | the beginning of a read is the session's, and a newline left in the store ends the wait |
| `Console.TypeOn` | devices/keyboard.c:232-252 | a key at the keyboard is the session's key, during a read, outside one, and between Enter and the return, and touches nothing but the terminal's own memory |
| `Console.EnterOn` | devices/keyboard.c:574-615 | Enter is the session's Enter if the line fits into the history buffer, and touches nothing but the terminal's own memory |
| `Console.ReturnOn` | devices/terminal.c:122-154 | the return of a read is the session's, and hands over its line |
| `Console.PlaysShows` | devices/keyboard.c:505-527 | while a session is tidy the logical page shows its output and its line |
| `Console.SamePage` | devices/keyboard.c:510-513 | another page with the same 24 rows serves a terminal as well |
| `Console.ClearScreen` | lib.c:18-25 | 24 blank rows |
| `Console.NewTerminal` | paging/multi_terminals.c:5-14 | an initialised terminal and its page are in the state of an empty session |
| `Console.Console.Write` | devices/terminal.c:176-184 | the writing process's own logical page gets the text, in the middle of another terminal's line too; the other terminals and pages are untouched |
| `Console.Console.Begin` | devices/terminal.c:100-108 | a process begins to read on its own terminal, visible or not |
| `Console.Console.Press` | devices/keyboard.c:234-236 | a key goes to the visible terminal alone |
| `Console.Console.Enter` | devices/keyboard.c:234-239 | so does Enter, on a line that fits into the history buffer |
| `Console.Console.Return` | devices/terminal.c:122-154 | a read returns its line on its own terminal, visible or not |
| `Console.Console.Exchange` | devices/keyboard.c:510-520 | old page saved, new page brought in, status bar drawn below the 24 rows; all three terminals can go on |
| `Console.Console.Switch` | devices/keyboard.c:505-520 | rows 0 to 23 of all three logical pages are preserved and the terminal shown changes |
| `Console.Console.DrawStatusBar` | lib.c:97-142 | only row 24 changes |
| `Console.Console.DoAll` | devices/keyboard.c:505-527 | after any run in which no Enter comes on a line too long for the history buffer, no write with the row below it, no Backspace in the page's first cell, and no typing out of reach before Ctrl-L: every terminal's reads have returned the lines, and every tidy logical page shows the output and the line, that its own actions alone produce, and no access has left a page or a history buffer |
| `Console.Console.constructor` | paging/multi_terminals.c:5-14 | three initialised terminals, the first on the screen |
| `Console.Boot` | kernel.c:174-175 | from a cleared screen the console's invariant holds |
| `Numbers.NumeralIsNumeral` | lib.c:351-381 | the numeral of a value has digits below the radix, no leading zero, and that value |
| `Numbers.NumeralIsUnique` | lib.c:351-381 | any text of digits without a leading zero is the numeral of its value |
| `Numbers.SameValueSameText` | lib.c:201-211 | two texts of digits of the same length and value are the same, so %#x determines its eight digits |
| `Numbers.LowFirstReversed` | lib.c:369-374 | the digits found lowest first, reversed, are the numeral |
| `Numbers.WordLength` | lib.c:197-205 | a 32-bit value has at most 32 digits, and at most 8 in base 16 |
| `Numbers.Strlen` | lib.c:406-411 | the number of characters before the terminator |
| `Numbers.Strrev` | lib.c:387-400 | reverses the string in place and leaves the rest of the buffer alone |
| `Numbers.WriteDigits` | lib.c:369-374 | writes the digits lowest first and nothing else |
| `Numbers.Itoa` | lib.c:351-381 | for every 32-bit value and radix from 2 to 36: the numeral, zero-terminated, at that place of the buffer |
| `Numbers.PrintUnsigned` | lib.c:217-224 | %u prints the decimal numeral of the value |
| `Numbers.PrintHex` | lib.c:195-213 | %#x prints exactly eight hexadecimal digits of the value |

## Left out

- Port I/O, the PIC, PIT, RTC, CMOS and mouse hardware, descriptor tables and boot assembly; only the two interrupt mask bytes are kept.
- Registers, stacks and `iret`: a saved esp/ebp pair is an opaque context that remembers the kernel entry, the stack and the place that saved it. Every system call and interrupt is one atomic step, so interrupt windows inside a call and the deferred keyboard acknowledgement are not modelled.
- Boot interleavings: the three root shells start before any other execute or Alt-F key, "shell" is loadable, and PCB memory is zero at power-on.
- Kernel.Kernel.SysExecute: command parsing, the file and magic-number checks and the arguments are one flag, `loadable`; the descriptors of a process are modelled in `Files`, not in the kernel's PCBs.
- Kernel.Kernel.SysHalt: the message of a halting root shell and the closing of descriptors are not part of this step; the latter is Files.Process.CloseAll.
- DiskImage.ReadCount: only calls whose transfer stays in the inode's 1023 block indices and does not overflow 32 bits; the sizes of the bitmaps bound inodes and data blocks to 64 and 59.
- DiskImage.WriteData: the undo loop is modelled where its index stays in the block list.
- FileSystem.FileSystem.FsInit: inodes are an array, and the inode scanned is the one that read_data and write_data use, as said above for `get_inode_by_idx`. The entry that fs_init reads through an uninitialised pointer is a local variable.
- FileSystem.FileSystem.CreateNewFile: initialises the inode that read_data and write_data use, as said above, and takes names of at most 31 characters, because longer ones reach strcpy without a terminator.
- DiskImage.CreateFile: the same corrected inode address.
- Ownership.CreateKeepsValid: holds for that address only.
- Files.Process.DirRead: the size the caller gives has no effect, as in the source; in an empty directory positions past the 63 entries are excluded, where the source reads past the directory.
- Files.Process.SysOpen: a mouse descriptor is filled from an entry that the source leaves uninitialised, which is a parameter here; a missing name of 32 characters or more, which would reach strcpy in create_new_file, is excluded.
- Files.Process.SysRead: calls to the terminal, RTC and mouse drivers are passed on, not modelled; for a directory as in DirRead.
- Colour attributes, and the text of the status bar, which is a parameter of each switch.
- Terminal.Terminal.StoreHistory: the history buffer is never read back by any other function, so that only the places of its stores are stated; a store outside it has no effect here but to set the ghost field `strayed`.
- Terminal.Terminal.SetcMulti: a store outside the page has no effect but to set `strayed`, and a load from there is a zero, because memory around the page is not modelled.
- Terminal.Terminal.Backspace: the guard against a negative count never fires, so it is left out.
- Terminal.Terminal.NewLine: what the stores past the history buffer do to row_index and to the next terminal is not modelled; neither row_index nor the position is stated then. The test of the global row index is left out, because that variable is never updated and the test never holds.
- Terminal.Terminal.KeepHistory: likewise.
- Terminal.Terminal.EnterDown: likewise.
- Terminal.Terminal.KeyDown: translation of scan codes is left out.
- Terminal.Terminal.PrevCommand: the saved draft (temp_commands) is left out, since nothing replays it, and so is next_command.
- Terminal.Terminal.TerminalRead: the requested length has no effect beyond its sign, as in the source; the null check is left out.
- Terminal.Terminal.OutputChar: what the page shows as a whole once a line has scrolled while it was typed is not stated; the scroll itself is, in ScrollForLine.
- Terminal.Terminal.TerminalWrite: null pointers and negative lengths are left out; that the page shows the output is not stated after a carriage return or after a write that ended at column 80.
- Console.Console.DoAll: the rows of a page that is not tidy are not stated. They need not be a function of the terminal's own actions: a line that runs into the status bar's row can take characters of the status bar up into row 23. Typing out of reach before Ctrl-L, and a negative length of a read, are left out. Processes write to their own terminal only while they do not read on it.
- `terminal_open` and `terminal_close`, which clear the backup page rather than the logical screen.
- Exception handlers, RTC and mouse drivers, `sys_getargs`, the signal stubs and `%d`, `%c` and `%s`: they would only add easy members.
