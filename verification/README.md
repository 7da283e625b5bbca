# SzymOS kernel: file system, terminal and shell, in Dafny

A model of three connected parts of the SzymOS kernel and proofs about them:

1. **SzymFS on an ATA disk.** A 1416-byte header with 32 file entries and a
   128 KiB data array live in static memory; every create and delete writes all
   259 sectors of the image again, one at a time, through the ATA registers. Any
   write may fail and stop the save part-way; the next boot reads the image back.
2. **The VGA terminal.** An 80x25 cell buffer with wrapping, tabs, backspace and
   in-place scrolling, the hardware cursor, and number printing.
3. **The interactive path.** Scancodes, the line editor, the parsers of `write`,
   `cat`, `rm` and `calc`, and the C string primitives.

Each part has a description on values (bytes, slots, cells, lines), the source's
code as classes and loops proved equal to it, and theorems about every run of it.
The code part has no choice of its own left: which sectors are written or read is
a function of the status bytes the device answers with, down to `kernel_main`.

`dafny verify dfyconfig.toml` checks the whole project.

## How it is laid out

| file | what it holds |
|---|---|
| CLib.dfy | `memset`, `memcpy`, `strlen`, `strcmp` over byte memory |
| Ata.dfy | an ATA channel as a register-level state machine with an arbitrary status stream; the polling idioms and the two sector drivers |
| FsLayout.dfy | the i386 bytes of the header and of the disk image, with typed views |
| SlotMap.dfy | 32 slots, and the map from names to texts that lookups in them make |
| FsSpec.dfy | create, delete, read and save on bytes, refining operations on that map |
| FsRuns.dfy | boots and runs of operations; refinement, `fs_persistent` |
| FsTorn.dfy, FsPatch.dfy, FsCrash.dfy | saves that stop part-way, one after the other, and what the next boot finds |
| FsDevice.dfy | which sector commands of a save, a load and a boot the status stream lets through |
| FileSystem.dfy | `kernel/filesystem.c` on arrays, with its loops |
| TerminalSpec.dfy, Numbers.dfy, Terminal.dfy | the screen as a window on an endless tape; number texts; `kernel/terminal.c` on its cell array |
| Keyboard.dfy | the scancode driver and what it should return |
| DiskBytes.dfy | the bytes on the disk at their offsets |
| Printed.dfy | printed text on the screen, cell by cell |
| LineEditor.dfy | the command line and the 80x25 screen while it is typed |
| ShellSpec.dfy, ShellRuns.dfy | parsers, commands and what they print; `shell_run` as a machine over keys and power cycles |
| Commands.dfy, TypedCommands.dfy | what each command line means, and what it does when it is typed |
| Shell.dfy | `kernel/shell.c` and the boot order of `kernel/kernel.c` on the classes |

## The device and the environment

The disk answers from an arbitrary stream of status bytes: a poll may never see
BSY clear or DRQ set. Register and data-port behaviour follows the PIO data-in
and data-out command protocols of clause 9 of ATA/ATAPI-6. That a sector whose
write returns -1 is unchanged is proved from this, not assumed. An `Io` value
says how many sector writes of one save succeed before the first that fails, and
gives the 120 bytes that lie behind the header in memory, which the third header
sector takes along; a `Reads` value does the same for one load. The theorems on
values hold for all of them. The classes compute with the one that follows from
the status stream and the number of polls made so far (`FsDevice.SaveIo`,
`FsDevice.LoadReads`), and on a responsive device nothing fails
(`FsDevice.ResponsiveNeverFails`). The number of polls a
`disks` command makes is given from outside. A C string argument is a byte sequence
that holds a NUL. What `fs_save_to_disk` and the listing commands print is an arbitrary
list of terminal operations, given from outside.

## What the code does that its users may not expect

Each of these has a lemma that says exactly when it happens.

- A name of 32 bytes or more is looked up whole but stored cut to 31 bytes, so a
  second file can get a name that is already in use (`FsSpec.NamesStayDistinctIff`).
  `cmd_write` never passes such a name: it cuts a name at 31 characters, and what it
  cuts off becomes the start of the content (`Commands.WriteNameOnly`).
- A save that stops after one or two sectors can leave a `file_count` that does
  not match the table (`FsTorn.TornCreateIff`, `FsTorn.TornDeleteIff`, and from any
  state `FsCrash.CountOnDiskFitsIff`). No other file is harmed
  (`FsCrash.CreateIsCrashSafe`, `FsCrash.DeleteIsCrashSafe`).
- Entries 11 and 23 lie across a sector boundary. A delete torn there brings the
  file back under the empty name, and two files can come to share that name.
- Deleting does not wipe data. A create whose save stops in the data sectors shows
  older bytes under the new name, such as the text of a deleted file
  (`FsCrash.DeletedTextShows`).
- A failed save is not made up for. After several of them each header sector on
  the disk can be from another moment (`FsPatch.DiskIsPatchwork`), and a deleted
  file can come back beside a new one of the same name
  (`FsCrash.DeletedFileComesBack`; exactly when: `FsCrash.NamesOnDiskDistinctIff`).
- A header read that stops part-way keeps the sectors it has read
  (`FsTorn.HalfReadHeaderIff`), and skips the data altogether: one unreadable header
  sector at boot and one complete save later every text on the disk is zeros
  (`FsTorn.UnreadHeaderWipes`; which slots survive which reads:
  `FsTorn.PoorBootThenSave`).
- `fs_persistent` is set even when data sectors could not be read
  (`FsRuns.PersistentAfterBadReadsIff`), and once a save has failed later
  successful saves do not set it again (`FsRuns.NotPersistentUntilReboot`).
- `ata_write_sector` returns -1 on a timeout after the last word although the
  sector is stored by then; `fs_write_sector_direct` does not look.
- The terminal's backspace stays in its row, so erasing a wrapped line at column
  0 leaves screen and command buffer apart (`LineEditor.LineAgreesIff`).
- `calc` operands past the int limit wrap and can be read as negative; the line
  printed for them is not computed to itself (`ShellSpec.CalcFixedPointIff`,
  `ShellSpec.OverflowNotFixed`).
  `%d` of INT_MIN prints a lone minus sign. Signed overflow is undefined in C;
  the model lets it wrap. INT_MIN divided by -1 faults on the i386, and the kernel
  loads no interrupt table, so the fault usually resets the machine
  (`ShellSpec.CalcFaultsIff`); in the shell's machine that reset is the power cycle
  that follows.

## Model

| member | source | states |
|---|---|---|
| CLib.MemSet | kernel/kernel.c:13-18 | fills the whole buffer |
| CLib.MemCpy | kernel/kernel.c:20-26 | overwrites exactly the destination range with the source prefix |
| CLib.StrLen | kernel/kernel.c:28-33 | the number of bytes before the first NUL |
| CLib.StrCmp | kernel/kernel.c:47-53 | zero exactly on equal C strings, otherwise the difference of the first two bytes that differ; a first string without a NUL is enough when it is longer than the second |
| Ata.BytesOfWordsOf | kernel/filesystem.c:83-86 | cutting a buffer into little-endian words and joining them gives the same bytes |
| Ata.WordIsLittleEndian | kernel/filesystem.c:83-86 | the low byte of each word is the one that comes first in memory |
| Ata.ReadyBits | kernel/filesystem.c:28-41 | the first wait looks at bit 7 of the status register, for every status, and the second at bit 3 |
| Ata.WaitOkIffReadyInTime | kernel/filesystem.c:27-29 | a wait succeeds exactly on the status streams that show a ready status within 100000 polls, and polls at most 100001 times |
| Ata.CommandOkIff | kernel/filesystem.c:26-42 | a command is let through exactly by the streams that first show BSY clear within 100000 polls and then, behind that poll, first show DRQ set within 100000 |
| Ata.CommandPolls | kernel/filesystem.c:88-90 | how many polls such a command makes, and the wait a write adds, which fails exactly when BSY does not clear within 100000 polls |
| Ata.FailedPolls | kernel/filesystem.c:26-42 | one that is not let through gives up after 100001 polls of one wait |
| Ata.SteadyDevice | kernel/filesystem.c:26-42 | a device that always answers 0x58 is responsive and lets every command through |
| Ata.DeadDevice | kernel/filesystem.c:26-42 | one that always shows BSY, or never DRQ, lets none through |
| Ata.ResponsiveAccepts | kernel/filesystem.c:27-42 | a device that shows both ready states within any 100000 polls lets every command through |
| Ata.FsWait | kernel/filesystem.c:40-42 | the `timeout--` idiom: result and number of polls are those of the common wait specification |
| Ata.AtaWait | kernel/ata.c:10-24 | the `timeout > 0` idiom: the same result and the same number of polls on every stream |
| Ata.DeviceByteIsBitwiseOr | kernel/filesystem.c:32 | the byte put into the device register is 0xE0 or-ed with the drive in bit 4 and bits 24 to 27 of the LBA |
| Ata.ReassembleLba | kernel/filesystem.c:32-36 | the four address registers carry exactly the low 28 bits of the LBA, and bit 4 the drive |
| Ata.SectorCommands | kernel/filesystem.c:37-48 | command 0x20 makes the device deliver the 512 bytes of that sector, command 0x30 take a sector in |
| Ata.Issue | kernel/filesystem.c:31-37 | the four address registers hold the LBA and the drive, and the device starts the command for that drive and sector |
| Ata.TransferIn | kernel/filesystem.c:44-48 | 256 words in give the 512 bytes of the sector |
| Ata.TransferOut | kernel/filesystem.c:82-86 | 256 words out store the buffer at the addressed sector and nowhere else |
| Ata.FsReadSector | kernel/filesystem.c:21-51 | 0 exactly when a drive is selected and both waits succeed; then the buffer is the sector, otherwise it is unchanged; how many polls it makes |
| Ata.FsWriteSector | kernel/filesystem.c:53-93 | 0 exactly when a drive is selected and both waits succeed; then the sector is stored, otherwise no drive changes; how many polls it makes |
| Ata.StoredRoundTrip | kernel/filesystem.c:53-93 | a stored sector reads back as written; every other sector and the other drive are unchanged |
| Ata.AtaReadSector | kernel/ata.c:322-364 | as FsReadSector, with four settling reads |
| Ata.AtaWriteSector | kernel/ata.c:269-320 | stores under the same condition, but answers -1 also when the completion wait times out after storing |
| FsLayout.U32RoundTrip | kernel/filesystem.h:15-16 | a 32-bit field reads back from its four bytes |
| FsLayout.FilledEntryFields | kernel/filesystem.c:303-314 | an entry filled byte by byte has the name (cut at 31), size, offset and used flag given |
| FsLayout.WithEntryAndCount | kernel/filesystem.h:20-24 | writing one 44-byte entry and the count changes no other entry and not the magic |
| FsLayout.EmptyHeader | kernel/filesystem.c:135-140 | a new header has the magic, count 0 and no used entry, whatever memory held |
| FsLayout.ImageRoundTrip | kernel/filesystem.c:188-220 | the image of 259 sectors decodes to all 1416 header and 131072 data bytes, for any 120 bytes behind the header |
| SlotMap.FullIffNoneFree | kernel/filesystem.c:267-274 | no slot is free exactly when all count as used |
| SlotMap.NamesCount | kernel/filesystem.c:319 | with distinct names there are as many files as used slots |
| SlotMap.FindsIt | kernel/filesystem.c:276-283 | with distinct names a lookup finds the slot that holds the name, and the map holds its text |
| SlotMap.FillSlot | kernel/filesystem.c:303-317 | filling a free slot under a new name adds that key and keeps names distinct |
| SlotMap.EmptySlot | kernel/filesystem.c:354-355 | emptying a slot removes its key only |
| FsSpec.EntryChanged | kernel/filesystem.c:303-319 | rewriting one entry, the count, and data inside that slot changes one slot and no other file |
| FsSpec.EnterAtSlots | kernel/filesystem.c:303-319 | entering a file fills one slot with the name as stored and the text |
| FsSpec.DropAtSlots | kernel/filesystem.c:354-356 | dropping a file empties one slot |
| FsSpec.CreateRefines | kernel/filesystem.c:285-325 | from any table that stands for a map: -2 iff the name is present, else -3 iff 32 files exist, else -4 iff over 4096 bytes, else 0 with only that key added; the table stands for a map again; file_count is right afterwards exactly when it was |
| FsSpec.DeleteRefines | kernel/filesystem.c:346-362 | 0 iff the name is present; exactly that key is removed; the table stands for a map again; file_count is right afterwards exactly when it was |
| FsSpec.ReadRefines | kernel/filesystem.c:327-344 | the named file's first min(size, max-1) bytes and a NUL, whatever they are, or -1 iff absent |
| FsSpec.NamesStayDistinctIff | kernel/filesystem.c:289-309 | names stay distinct after a create exactly when the name is under 32 bytes or its first 31 were not taken |
| FsSpec.LongNameCollides | kernel/filesystem.c:304-309 | every 32-byte name collides with its own first 31 bytes |
| FsRuns.SaveThenLoad | kernel/filesystem.c:99-234 | a complete save then a load is the identity on header and data, whatever lay behind the header and whatever memory held |
| FsRuns.BootRefines | kernel/filesystem.c:236-265 | fs_init brings up what the disk holds, or an empty file system without the magic |
| FsRuns.RamBootRefines | kernel/filesystem.c:236-259 | without a drive fs_init brings up an empty file system in memory |
| FsRuns.KernelBootRefines | kernel/kernel.c:118-138 | the boot order keeps the map, or without a drive starts from the empty one, adding README.txt if it is absent and there is room |
| FsRuns.AnyBootRuns | kernel/filesystem.c:99-174 | from a disk whose table stands for a map a boot comes up with one, whatever sectors it can read |
| FsRuns.BootEntriesOk | kernel/filesystem.c:106-166 | whatever part of a disk with well-formed entries is read at boot, the used entries in memory are well formed |
| FsRuns.StepRefines | kernel/filesystem.c:99-362 | each operation does to the map, and answers, what the operation on the map does |
| FsRuns.RunRefines | kernel/filesystem.c:99-362 | over every run, with or without a drive, whatever saves fail, SzymFS is that map with the same answers, whatever file_count and texts hold, as long as reboots onto the disk happen when it decodes to memory and read it well |
| FsRuns.KernelBootCount | kernel/kernel.c:118-138 | the boot order comes up with a right file_count, from a blank disk, a disk with a right one, or without a drive, README.txt and its save included |
| FsRuns.RunCount | kernel/filesystem.c:303-356 | file_count stays the number of used slots over every run, whatever saves fail, as long as reboots onto the disk happen when it decodes to memory and read it well |
| FsRuns.RunKeepsInvariant | kernel/filesystem.c:285-362 | so every state of every run has file_count equal to the number of files and at most 32, distinct terminated names, and texts in regions of the data array that do not overlap |
| FsRuns.AnyRunRefines | kernel/filesystem.c:99-362 | over every run whose reboots read the disk well and find a table that stands for a map, however far it is behind memory, SzymFS is a map between reboots and goes on after each with what the disk holds |
| FsRuns.SmoothIsSafe | kernel/filesystem.c:143-145 | when nothing fails fs_persistent stays set and every reboot is safe |
| FsRuns.RunFromPowerOnRefines | kernel/kernel.c:118-142 | from power-on with a blank or valid disk, every run in which nothing fails is a run of the map; and the table invariant of `FsRuns.RunKeepsInvariant` holds at its end when the disk was blank or its file_count right |
| FsRuns.PersistentSound | kernel/filesystem.c:173-226 | in every run, whatever writes and header reads fail, fs_persistent == 1 means the disk decodes to memory |
| FsRuns.PersistentAfterBadReadsIff | kernel/filesystem.c:159-173 | after unreadable data sectors that holds exactly when those sectors are all zero |
| FsRuns.BadReadUnsound | kernel/filesystem.c:163-173 | an unreadable first data sector that holds text leaves the flag set and memory wrong |
| FsRuns.NotPersistentUntilReboot | kernel/filesystem.c:194-226 | once it is 0 the flag stays 0 until the next boot |
| FsTorn.TornSavesDoNotInterfere | kernel/filesystem.c:189-226 | through any run of torn saves and reboots, a slot nobody writes to and every boot reads keeps its 44 + 4096 bytes on disk and decodes to the same file, whatever the boots cannot read of others |
| FsTorn.TornCreateIff | kernel/filesystem.c:189-202 | after a torn create, file_count on disk fits the table exactly when no sector or the slot's used byte was written |
| FsTorn.TornDeleteIff | kernel/filesystem.c:354-359 | the same for a torn delete |
| FsTorn.TornTwelfthFile | kernel/filesystem.c:189-202 | the twelfth file, torn after one sector, leaves a wrong count |
| FsTorn.HalfReadHeaderIff | kernel/filesystem.c:106-127 | a header read that stops keeps what it read; the count then fits exactly when no used entry lay further on |
| FsTorn.HalfReadLastSlot | kernel/filesystem.c:106-127 | it does not when the last slot is used and one sector is read |
| FsTorn.PoorBootThenSave | kernel/filesystem.c:99-226 | which slots of the disk a boot that cannot read every sector and a complete save leave: exactly those whose used byte was read and whose text is zero wherever it was not; and what becomes of the others |
| FsTorn.UnreadHeaderWipes | kernel/filesystem.c:121-126 | one unreadable header sector at boot and one complete save put zeros over all data on the disk |
| FsPatch.DiskIsPatchwork | kernel/filesystem.c:176-226 | in every run between two boots, wherever saves stop, each sector of the disk shows memory after the last operation whose save reached it, or what it held at the start |
| FsPatch.LaterSectorsAreOlder | kernel/filesystem.c:190-226 | a later sector is never from a later moment |
| FsPatch.EntryIsOfTwoMoments | kernel/filesystem.h:13-24 | each entry on the disk is that slot's entry at one such moment; entries 11 and 23 can be of an earlier one behind the sector boundary, never of a later one |
| FsPatch.EntryIsOfOneMoment | kernel/filesystem.h:13-24 | an entry whose sectors were last written at one moment is that slot's entry at that moment |
| FsPatch.NamesOfOneMomentDiffer | kernel/filesystem.c:285-362 | any two entries of the disk from the same moment never share a name |
| FsCrash.SavedTable | kernel/filesystem.c:176-226 | from any state, the table a save leaves on the disk: memory's entries, the disk's, or a mixed one, with data up to the sector where it stopped |
| FsCrash.RebootFindsTable | kernel/filesystem.c:99-174 | that is what the next boot finds, however far the disk was behind memory |
| FsCrash.NamesOnDiskDistinctIff | kernel/filesystem.c:176-226 | from any state with distinct names in memory, the names on the disk are distinct exactly when the slots a save did not reach have distinct names, none of them one it has written |
| FsCrash.CountOnDiskFitsIff | kernel/filesystem.c:176-226 | from any state, file_count on the disk fits exactly when the slots not reached hold as many files there as in memory |
| FsCrash.CreateIsCrashSafe | kernel/filesystem.c:303-322 | a create torn anywhere leaves every other file; the next boot finds the new name exactly when the used byte was written, with exactly these bytes; they are the content exactly when the data not written was the same already |
| FsCrash.DeletedTextShows | kernel/filesystem.c:354-356 | a create in a deleted file's slot, torn after the header, shows the deleted text |
| FsCrash.DeleteIsCrashSafe | kernel/filesystem.c:354-359 | a delete torn anywhere leaves every other file; the file is gone exactly when the used byte was written, else kept, or kept under the empty name when the tear goes through its entry; that name hides or is hidden by a file that has it already, and only then names are no longer distinct |
| FsCrash.OnlyTwoStraddle | kernel/filesystem.h:13-24 | a tear goes through an entry only for slots 11 and 23 |
| FsCrash.DeletedFileComesBack | kernel/filesystem.c:285-362 | two deletes that never reach the disk and a create torn after one sector leave two files of one name on the disk |
| FsCrash.CrashedDiskOkIff | kernel/filesystem.c:176-226 | after a save from any state that stopped anywhere, the disk stands for a map exactly when its names are distinct and the entry across the tear has a terminated name |
| FsCrash.ZeroEndedTerminates | kernel/filesystem.c:304-309 | the second condition always holds on a disk whose name fields end in a zero byte, so distinct names are all it takes there |
| FsCrash.RunZeroEnded | kernel/filesystem.c:304-309 | no run, whatever fails in it, ever changes that in memory or on the disk |
| FsCrash.RunSearchable | kernel/filesystem.c:99-362 | on such a disk the used entries stay well formed in memory and on the disk over every run, wherever saves stop and whatever boots can read, so that every later boot may search its table |
| FsCrash.MixedNameRunsOn | kernel/filesystem.h:13-18 | on a disk without the magic that held other bytes the second condition can fail: it does when a name of 20 bytes is torn over one with no NUL behind byte 20 |
| FsCrash.CrashThenRun | kernel/filesystem.c:99-362 | from there, after a reboot, every further run is a run of the map the torn save left |
| FsCrash.CreateThenRun | kernel/filesystem.c:285-325 | so after a create torn anywhere |
| FsCrash.DeleteThenRun | kernel/filesystem.c:346-362 | and after a delete torn anywhere that left names distinct |
| FsDevice.CompleteIff | kernel/filesystem.c:190-226 | a save is complete exactly when the device lets all 259 writes through |
| FsDevice.AllReadIff | kernel/filesystem.c:106-166 | a load reads everything exactly when the device lets all 259 reads through |
| FsDevice.ResponsiveNeverFails | kernel/filesystem.c:99-234 | on a responsive device no save and no load fails |
| DiskBytes.CreateWrites | kernel/filesystem.h:13-24 | what a create with a complete save puts on the disk, byte for byte: the magic, the number of files, name, length, place and used byte at their offsets, and the text |
| DiskBytes.DeleteWrites | kernel/filesystem.c:354-359 | a delete clears the entry's used byte and the first byte of its name on the disk, and no text |
| DiskBytes.CreateLimits | kernel/filesystem.c:285-300 | the answers of a create with the limits 32 and 4096 in numbers |
| DiskBytes.NotReady | kernel/filesystem.c:286-287 | before fs_init every operation answers -1 and changes nothing |
| DiskBytes.FirstBoot | kernel/kernel.c:118-138 | after the first boot README.txt is the only file |
| FileSystemCode.FileSystem.constructor | kernel/filesystem.c:9-15 | zeroed static memory |
| FileSystemCode.FileSystem.SetDriveInfo | kernel/filesystem.c:406-413 | the image is that of the drive chosen |
| FileSystemCode.OutsideRegion | kernel/filesystem.h:11 | of a drive only bytes 1048576 to 1181183 can change |
| FileSystemCode.WhereItIs | kernel/filesystem.c:189-220 | after a complete save the header is at byte 1048576 of the drive, the data at byte 1050112 |
| FileSystemCode.FileSystem.SaveToDisk | kernel/filesystem.c:176-234 | the disk becomes the new image up to the first write the status stream does not let through, and the flag follows; only sectors 2048..2306 of that drive, bytes 1048576 to 1181183, change |
| FileSystemCode.FileSystem.WriteImage | kernel/filesystem.c:190-226 | the loops write exactly the sectors up to that one, and succeed exactly when there is none |
| FileSystemCode.FileSystem.CopyHeaderSector | kernel/filesystem.c:110-119 | the clamped copy of one header sector |
| FileSystemCode.FileSystem.LoadHeader | kernel/filesystem.c:106-127 | the header bytes of exactly the sectors up to the first the status stream does not let through |
| FileSystemCode.FileSystem.LoadData | kernel/filesystem.c:156-166 | every sector the status stream lets through is loaded, every other one keeps its bytes |
| FileSystemCode.FileSystem.LoadFromDisk | kernel/filesystem.c:99-174 | the new state is that of the specification on what the status stream lets through, reformatting without the magic |
| FileSystemCode.FileSystem.Init | kernel/filesystem.c:236-265 | on zeroed memory, the boot of the specification on that stream |
| FileSystemCode.FileSystem.FindFreeSlot | kernel/filesystem.c:267-274 | the first unused slot or -1 |
| FileSystemCode.FileSystem.FindFile | kernel/filesystem.c:276-283 | the first used slot with that name or -1 |
| FileSystemCode.FileSystem.CreateFile | kernel/filesystem.c:285-325 | result code and whole new state are those of the specification with the save the status stream allows; nothing else on the drives changes |
| FileSystemCode.FileSystem.ReadFile | kernel/filesystem.c:327-344 | the code and the buffer are those of the specification |
| FileSystemCode.FileSystem.DeleteFile | kernel/filesystem.c:346-362 | result code and whole new state are those of the specification with that save |
| FileSystemCode.SaveAndRestart | kernel/filesystem.c:176-265 | a save, new static memory and fs_init give back all header and data bytes when all 259 writes and 259 reads are let through, and so on every responsive device |
| TerminalSpec.PutRefines | kernel/terminal.c:91-134 | one character edits the screen as it edits an endless tape seen through its last 25 rows |
| TerminalSpec.ScreenIsWindowOnDoc | kernel/terminal.c:34-157 | so does every stream of characters, colour changes and clears; row and column are the tape position |
| TerminalSpec.AlwaysBlankAhead | kernel/terminal.c:74-157 | every cell at or after the cursor always holds a space |
| TerminalSpec.PutCells | kernel/terminal.c:74-134 | what one character does to every cell: it stores itself, or backspace a space, in the low byte and the colour in force in the high one; a row that scrolls in is spaces in that colour; every other cell keeps what it held |
| TerminalSpec.PutCursor | kernel/terminal.c:91-134 | where each character leaves the cursor: one on, to the next row, to the next multiple of 4, or one back within the row |
| TerminalSpec.ClearedCells | kernel/terminal.c:34-157 | all cells are spaces after clear in the colour in force, after initialise in light green on black |
| TerminalSpec.CellsAreLastWrites | kernel/terminal.c:34-157 | over every stream of characters, colour changes and clears each cell holds the character last written there, in the colour in force when it was written |
| TerminalSpec.ScreenCellsAreLastWrites | kernel/terminal.c:34-157 | and so does each cell of the screen |
| Printed.TextOnScreen | kernel/terminal.c:136-143 | a text without control characters is spelled out from the cursor on, through any wrapping and scrolling, in the current colour, and what stood before the cursor stays |
| Printed.LineOnScreen | kernel/terminal.c:136-143 | the same with a newline, after which a row starts |
| Printed.PromptInRow | kernel/shell.c:25-34 | the 14 cells of the prompt, their characters and their colours; no other cell changes |
| TerminalSpec.ScrollGrows | kernel/terminal.c:74-134 | the tape grows by a row exactly when the screen scrolls |
| TerminalCode.Terminal.constructor | kernel/terminal.c:34-50 | a cleared screen with the cursor at its start |
| TerminalCode.Terminal.UpdateCursor | kernel/terminal.c:22-28 | the CRT controller's two bytes reassemble to row*80+column, below 2000 |
| TerminalCode.Terminal.SetColor | kernel/terminal.c:52-54 | only the colour changes |
| TerminalCode.Terminal.Scroll | kernel/terminal.c:74-88 | the in-place loops drop exactly the top row and append a blank one |
| TerminalCode.Terminal.PutChar | kernel/terminal.c:91-134 | the buffer, row and column of the specification, with the hardware cursor agreeing on every path |
| TerminalCode.Terminal.WriteString | kernel/terminal.c:136-143 | the characters one after the other |
| TerminalCode.Terminal.Clear | kernel/terminal.c:145-157 | all cells blank, cursor at the start |
| TerminalCode.Terminal.Initialize | kernel/terminal.c:34-50 | the same in the initial colour; the cursor's scan lines are set and no other bit of the controller but its position |
| TerminalCode.Terminal.EnableCursor | kernel/terminal.c:15-20 | start and end scan line are set, the upper bits of the two registers stay |
| TerminalCode.Terminal.Play | kernel/terminal.c:52-157 | any list of characters, colour changes and clears, in order |
| TerminalCode.Terminal.FillDigits | kernel/terminal.c:187-190 | the digits, least significant first, within the buffer |
| TerminalCode.Terminal.PutBackwards | kernel/terminal.c:197-199 | prints a filled buffer from its end |
| TerminalCode.Terminal.PrintDecimal | kernel/terminal.c:173-201 | prints the decimal text, never past byte 11 of 12 |
| TerminalCode.Terminal.PrintHex | kernel/terminal.c:202-222 | prints the hexadecimal text, never past byte 8 of 9 |
| Numbers.DecTextRoundTripIff | kernel/terminal.c:173-201 | the decimal text reads back as the number exactly for every int but INT_MIN; no leading zero; at most 11 characters |
| Numbers.HexTextRoundTrip | kernel/terminal.c:202-222 | the hexadecimal text reads back for every 32-bit value; no leading zero; at most 8 digits |
| Numbers.DigitAt | kernel/terminal.c:187-214 | the digit k places from the right is n divided by 10 or 16 to the k, modulo 10 or 16, as one of 0123456789ABCDEF |
| Numbers.SignAndPrefix | kernel/terminal.c:173-222 | a minus sign or 0x in front, and a single 0 for zero |
| KeyboardCode.UsTablesFit | kernel/keyboard.c:9-57 | shift keys and scancode 0 have no character |
| KeyboardCode.PlainRows | kernel/keyboard.c:9-18 | the four rows of keys without shift, as text |
| KeyboardCode.ShiftedRows | kernel/keyboard.c:45-54 | and with shift |
| KeyboardCode.OtherKeys | kernel/keyboard.c:9-57 | backspace, tab, Enter, space, Escape and the keypad |
| KeyboardCode.SilentKeys | kernel/keyboard.c:9-60 | no other key has a character |
| KeyboardCode.HeldShift | kernel/keyboard.c:88-118 | a key alone yields its character, with either shift key held the shifted one, and after that key's release the plain one again |
| KeyboardCode.KeyA | kernel/keyboard.c:88-118 | scancode 0x1E alone yields a, behind 0x2A or 0x36 it yields A |
| KeyboardCode.DriverDecodes | kernel/keyboard.c:76-122 | on every scancode stream the driver returns the decoding, under the last shift event, of the stream without adjacent repeats |
| KeyboardCode.TypingRoundTrip | kernel/keyboard.c:76-122 | pressing and releasing any keys of the layout, with shift where needed, yields their characters |
| KeyboardCode.Keyboard.GetChar | kernel/keyboard.c:76-122 | consumes up to the first scancode that yields a character and returns that one |
| LineEditor.TypedLine | kernel/shell.c:362-376 | up to 255 plain characters are the command, as typed |
| LineEditor.LineKeeps255 | kernel/shell.c:373-376 | of any number of plain characters the first 255 are kept |
| LineEditor.EraseUndoes | kernel/shell.c:362-372 | backspace undoes a character that was kept and is ignored on an empty line; a tab is ignored |
| LineEditor.PutAllRefines | kernel/terminal.c:136-139 | printing a text keeps the screen the window on the tape |
| LineEditor.TypingIsEditing | kernel/shell.c:345-378 | typing on the 80x25 screen is editing the tape seen through its window |
| LineEditor.LineTracks | kernel/shell.c:345-378 | the cursor stands past the line by exactly the number of erasures tried in column 0 |
| LineEditor.MissedIff | kernel/shell.c:362-376 | there is such an erasure exactly when the keys and the start column say so |
| LineEditor.LineAgreesIff | kernel/shell.c:345-378 | on any screen, the cursor stands just behind the line and the cells before it spell the command buffer exactly when no key erased a line that ended before column 0, a condition on the keys and the start column alone |
| LineEditor.UnwrappedLineAgrees | kernel/shell.c:362-376 | a line that starts right of column 0 and never fills its row is what the screen shows |
| LineEditor.LineAfterPromptAgrees | kernel/shell.c:25-34 | after the 14-column prompt on a fresh row, such a line is what the screen's cells spell from column 14 on |
| LineEditor.ErasureMissed | kernel/shell.c:362-368 | one character typed in the last column and erased leaves them apart |
| ShellSpec.CalcFixedPointIff | kernel/shell.c:74-122 | calc computes a line it printed to the very same line exactly when neither number typed wraps to a negative int |
| ShellSpec.AccumulatedWraps | kernel/shell.c:85-88 | the number a run of digits is read as is its value, wrapped to an int |
| ShellSpec.OverflowNotFixed | kernel/shell.c:85-88 | the line printed for `2147483648 + 1` is not computed to itself |
| ShellSpec.CalcFaultsIff | kernel/shell.c:107-113 | the division faults exactly when the number before the slash wraps to INT_MIN and the one behind it to -1 |
| ShellSpec.DivisionDoesFault | kernel/shell.c:107-113 | `2147483648 / 4294967295` does |
| ShellSpec.ParseWriteExact | kernel/shell.c:143-165 | a space-free name of 1 to 31 characters, a space, and a text not starting with one are parsed exactly |
| Commands.ParseWriteIs | kernel/shell.c:149-168 | any arguments of `write`, with any runs of spaces and any name: a name of more than 31 characters is cut, and what lies behind the cut becomes content |
| Commands.WriteArgsOf | kernel/shell.c:149-168 | every line has the form that lemma is about |
| Commands.WriteWord | kernel/shell.c:143-191 | what any `write` line does to the files and answers, the missing name, the missing content, the taken name and the full table included |
| Commands.WriteNameOnly | kernel/shell.c:149-168 | `write` and a name of up to 31 characters alone changes nothing; with a longer name alone it makes a file of what is cut off |
| Commands.SaveWord | kernel/shell.c:280-282 | `save` leaves memory as it is, and when every sector is written the disk holds it |
| Commands.CatWord | kernel/shell.c:128-141 | `cat` answers with the file's text up to a NUL, or that there is none |
| Commands.RmWord | kernel/shell.c:193-205 | `rm` removes exactly that file, and says whether it was there |
| Commands.CalcWord | kernel/shell.c:299-301 | `calc` computes the rest of the line and leaves the files alone |
| Commands.EchoWord | kernel/shell.c:320-323 | `echo` answers with the rest of the line |
| Commands.ClearWord | kernel/shell.c:261-263 | `clear` clears and leaves the files alone |
| Commands.OtherWords | kernel/shell.c:211-326 | none of the other command words changes a file or the disk |
| Commands.UnknownIff | kernel/shell.c:207-332 | a line is answered as unknown exactly when it is none of the command words and starts with none of the six that take an argument; then nothing changes |
| Commands.CalcTyped | kernel/shell.c:83-100 | with any spaces, the digits before and behind the operator are the numbers of the line |
| Commands.CalcNoOperator | kernel/shell.c:91-119 | without an operator the usage is printed |
| Commands.CalcMeans | kernel/shell.c:103-121 | the number printed behind the equals sign is the sum, difference or product of the numbers typed, wrapped to an int, or the quotient cut towards zero: the rest is smaller than the divisor and has the dividend's sign |
| Commands.QuotientUnique | kernel/shell.c:112 | there is only one such quotient |
| Commands.CalcRefusesIff | kernel/shell.c:107-119 | usage is printed exactly when the operator is none of the four, the division error exactly when the second number of a division wraps to zero |
| Commands.FivePlusThree | kernel/shell.c:121 | `calc 5 + 3` prints `5 + 3 = 8` |
| ShellSpec.CommandKeeps | kernel/shell.c:207-333 | a command other than `rm` of that name keeps a file and its text |
| ShellSpec.CommandRuns | kernel/shell.c:207-333 | every command keeps the table one that stands for a map |
| ShellSpec.CommandEntriesOk | kernel/shell.c:207-333 | and entries well formed, on any table |
| ShellSpec.CommandIsSound | kernel/filesystem.c:173-226 | and never sets fs_persistent wrongly |
| ShellSpec.CatPrints | kernel/shell.c:128-141 | `cat` prints exactly a file's text without NUL, and a newline |
| ShellSpec.WrittenIsWhatCatPrints | kernel/shell.c:128-191 | what a successful `write` wrote is what `cat` prints, through any commands that do not remove it, any failing saves, and restarts when the disk holds what memory holds |
| ShellRuns.FilesAreSession | kernel/shell.c:345-378 | the files after any keys and power cycles are those after the commands entered and the restarts |
| ShellRuns.StaysStopped | kernel/shell.c:107-113 | after a division fault nothing typed has an effect |
| ShellRuns.ResponsiveIsSafe | kernel/filesystem.c:143-173 | on a responsive device fs_persistent stays set and right, so every power cycle is safe |
| ShellRuns.TypedCommand | kernel/shell.c:345-378 | plain characters and Enter run exactly that command, echoed |
| ShellRuns.TypingAtPrompt | kernel/shell.c:362-376 | until Enter, line and screen are those of the line editor |
| ShellRuns.WriteThenCat | kernel/shell.c:128-191 | what a `write` typed with room for the file wrote is what a later `cat` typed puts on the screen, through any keys and safe power cycles that enter no `rm` of it |
| TypedCommands.TypedSave | kernel/shell.c:280-282 | `save` typed on a responsive device makes the disk hold what memory holds, whatever had failed before, so that a power cycle is safe |
| TypedCommands.TypedWrite | kernel/shell.c:143-191 | any `write` typed: the file it adds or none, and its answer on the screen in its colour |
| TypedCommands.TypedRm | kernel/shell.c:193-205 | `rm` typed: that file goes, and the answer stands on the screen in green, or in red that there is none |
| TypedCommands.TypedCat | kernel/shell.c:128-141 | `cat` typed: the text stands on the screen, cell by cell |
| TypedCommands.TypedEcho | kernel/shell.c:320-323 | `echo` typed: the text stands on the screen and the prompt on the next row |
| TypedCommands.TypedCalc | kernel/shell.c:74-122 | `calc` typed: the line it computes stands on the screen |
| TypedCommands.TypedFault | kernel/shell.c:107-113 | a faulting division typed stops the machine behind that line with the files as they were |
| TypedCommands.TypedClear | kernel/shell.c:261-263 | `clear` typed: the prompt stands on row 0 and every other cell is blank |
| TypedCommands.TypedUnknown | kernel/shell.c:327-332 | a line that is no command: a red message, a white hint, and no change |
| TypedCommands.TypedOther | kernel/shell.c:207-326 | the other words and an empty line change no file |
| TypedCommands.SaveFromTheKeyboard | kernel/shell.c:345-378 | the ten scancodes of `save` and Enter make the disk of a responsive device hold memory |
| ShellCode.ReadNumber | kernel/shell.c:85-88 | consumes the digits and accumulates them |
| ShellCode.ReadExpr | kernel/shell.c:84-100 | operands and operator of the specification |
| ShellCode.CmdCalc | kernel/shell.c:74-122 | answers and prints what the specification says, usage and division by zero included; a faulting division prints nothing |
| ShellCode.StartsWithAt | kernel/shell.c:18-23 | true exactly on strings with the prefix |
| ShellCode.CmdCat | kernel/shell.c:128-141 | answers and prints what the specification says, the not-found message included |
| ShellCode.ParseArgs | kernel/shell.c:144-165 | the pointer walk yields the terminated name and the content of the specification |
| ShellCode.CmdWrite | kernel/shell.c:143-191 | parses by pointer, creates the file of the specification with the save the status stream allows, and prints its message |
| ShellCode.CmdRm | kernel/shell.c:193-205 | deletes the file of the specification with that save, and prints its message |
| ShellCode.Dispatch | kernel/shell.c:207-333 | picks the command of the specification, the empty line and unknown commands included |
| ShellCode.ExecuteCommand | kernel/shell.c:207-333 | file system, polls and screen after a command are those of the specification |
| ShellCode.CommandLine.Edit | kernel/shell.c:362-376 | buffer and echo of the line editor |
| ShellCode.CommandLine.Enter | kernel/shell.c:355-361 | files, screen and a new line are those of the machine: newline, the command on the line, the prompt, or the end when a division faults |
| ShellCode.PrintPrompt | kernel/shell.c:25-34 | the prompt in its colours |
| ShellCode.ShellRun | kernel/shell.c:345-378 | over every scancode stream and from any table with well-formed entries, files, command buffer and screen are those of the machine on the decoding of the stream without adjacent repeats |
| ShellCode.TypedKeys | kernel/keyboard.c:76-122 | keys of the layout pressed and released are, to the loop, their characters |
| ShellCode.TypedWriteThenTypedCat | kernel/shell.c:345-378 | the end-to-end result from scancodes to the screen of the machine that ShellRun is proved equal to |
| ShellCode.BootFiles | kernel/kernel.c:118-138 | fs_init, then README.txt if it is missing, whatever the disk holds and whatever part of it can be read |
| ShellCode.PowerOn | kernel/kernel.c:118-138 | with or without a drive, the boot of the specification; the used entries are well formed whatever can be read |
| ShellCode.BootedFiles | kernel/kernel.c:118-138 | these are the disk's files, or none without a drive, and README.txt, when a blank or valid disk is read well; and they make a map from any valid disk, whatever can be read |
| ShellCode.KernelMain | kernel/kernel.c:118-142 | then the shell runs on those files as its machine does on the decoded scancodes |

## Left out

- ShellCode.ExecuteCommand: the lines `fs_save_to_disk` and the sector driver print, and the output of `help`, `ls`, `info`, `version`, `banner`, `colors`, `cpuid`, `mem`, `disks` and the serial commands, are any list of terminal operations; their text is not modelled. None of them changes a file.
- ShellCode.CmdCalc: when no operator is given the source reads on past the end of the string before it prints the usage; the model answers at once.
- ShellCode.PowerOn: requires well-formed used entries on the disk unless the whole header is read and has no magic number, which the `strcmp` and `memcpy` of later commands need; a table with a name running past its field is searched beyond it by the source. No crash leaves one on a disk whose name fields ended in a zero byte when SzymFS first used it, as on a blank disk (`FsCrash.RunSearchable`).
- FileSystemCode.FileSystem.SetDriveInfo: requires the drive to have at least 2307 sectors; what a smaller drive does with commands past its end is not modelled.
- FileSystemCode.FileSystem.FindFile: for a name of 32 bytes or more requires used names to be NUL-terminated within their 32 bytes, which `strcmp` then needs; it holds in every state reached from a blank or valid disk.
- The endless loops of `shell_run` and `keyboard_getchar` run over finite streams of scancodes.
- `reboot` and `panic` as commands: a power cycle is its own input of the shell's machine.
- `ata_identify`, `ata_detect_drives` and the disk selector: their result, a selected drive with at least 2307 sectors or none, is a parameter, and so is the number of polls made before the file system uses the channel.
- ERR and DF status bits, which the sector paths do not look at, and the interrupt and DMA side of the device.
- The text of README.txt: any C string of up to 4096 bytes.
- CPU, memory and serial code, boot assembly and the linker script: hardware access with no logic of its own.
