# Verified model of the kernel's core algorithms

This project models seven parts of a small i686 kernel in Dafny and proves what they promise, on every
input, run or reachable state.

| part | files |
|---|---|
| shared facts | `Arithmetic`, `PhysicalMemory` |
| heap allocator and its start-up from the firmware's memory map | `FreeList`, `HeapStates`, `Heap`, `HeapUse`, `MapFrees`, `MemoryMap` |
| VGA text terminal | `Terminal`, `VgaText` |
| FAT32 read path and the readers above it | `Disk`, `FatVolume`, `FatTable`, `FatFile`, `FileStreams` |
| keyboard driver: command protocol, initialisation, scancode decoder | `KeyboardProtocol`, `KeyboardSends`, `KeyboardInit`, `KeyboardBytes`, `Keyboard`, `Scancodes`, `ScancodeKeys` |
| printf engine, vsnprintf and the two number readers | `NumberText`, `TextShapes`, `PrintNum`, `NumberReaders`, `FormatText`, `FormatPieces`, `FormatLaws`, `CStandard`, `Printf` |
| PCI enumeration | `PciTree`, `PciConfig`, `PciPorts`, `Pci` |
| GPT reader and the linked list | `LinkedList`, `GptTable`, `Gpt`, `GptImage` |

`dafny verify dfyconfig.toml` checks everything.

## How it is built

Code that changes state is modelled by classes, arrays and loops with the source's fields, branches and
constants. Each of those methods is proved against a reference on values, and the properties are
theorems about the reference.

- **Heap.** Memory is one byte array; free nodes and block headers live in the bytes they describe. A
  ghost sequence of nodes says what the bytes encode. The reference is a partition of the managed
  addresses into a canonical free list and live blocks. That a canonical list is determined by the
  bytes it covers gives the main result: however blocks were allocated, written to and freed, once the
  live blocks are the same again, so is the list, node for node.
- **Terminal.** The 80x25 window scrolled in place refines a terminal that never forgets a row.
- **FAT.** The one-sector table cache, the chain cursor and the sector buffer are proved to present a
  file as one sequence of bytes, with any request to the drive possibly failing. Links and bytes of a file
  are also given in bytes of the table and of the drive.
- **Keyboard.** Every received byte is one step. The ring refines a queue; the invariant over every byte
  stream covers order, single completion and the number of sends; the initialisation is a client of it.
  Every byte either belongs to a command or reaches the decoder, and so a key pressed gives its event.
- **printf.** The scanner is a state machine over single characters; the reference parses one directive
  at a time and renders the items. The number readers are the partners of the number layout, and a layout
  is taken apart into blanks, sign, zeros and digits to compare it with others and with the C standard.
  Formats put together from text and directives print what these were written for.
- **PCI.** The mutually recursive scan is compared with reachability through bridges in an arbitrary
  configuration space, for the buses whose scan ends, and with the words that the ports return.
- **GPT.** The entry loop with its sector cache is compared with the table as a stretch of bytes, and what
  is found with the entries that were written to the drive.

## Where the code does not do what it is meant to do

The model keeps the code as it is; the rows below give for each of these the exact condition under which
the intended property holds.

- `memory.c:143` loses a region in the exchange of the insertion sort, so sorting keeps the regions only
  if they were sorted (`MemoryMap.SortRegions`).
- `memory.c:196` continues at the start of an overlapping region, though the comment says after it, so
  overlaps are not cut out (`MapFrees.ForbiddenExactlyWhen`); continuing after it would do
  (`MapFrees.RepairedSafe`). Lines 254-255 take unsigned differences, so that stretches ending before they
  begin are tried too (`MapFrees.InvertedForbidden`); for the whole of start-up see
  `MapFrees.StartupForbiddenExactlyWhen`.
- `memory.c:318-320` pad by the remainder instead of its complement (`HeapStates.AlignedExactlyWhen`).
- `memory.c:323` adds without regard to wrap-around (`HeapStates.WrongFitExactlyWhen`).
- `keyboard.c:534-535` change the stored code instead of the byte to resend
  (`KeyboardProtocol.ResendRepeatsExactlyWhen`).
- `keyboard.c:428-448` have no bound for the scancode buffer (`Scancodes.FitsExactlyWhen`).
- `keyboard.c:117` gives the keypad's 6 the keycode of its 7 (`ScancodeKeys.KeysDistinctExactlyWhen`).
- `fat.c:247` overwrites the sanity checks made before it (`FatVolume.InitPartition`).
- `stdio.c:182-183` take the byte 0xFF for the end of the file (`FileStreams.WholeLineExactlyWhen`).
- `format_print.c:372-378` do not reset the flags (for a format `FormatText.FlagsExactlyWhen`, for a call
  `FormatText.Call.OutputsAgreeExactlyWhen`), lines 347-356 fetch unsigned arguments as signed
  (`FormatText.Call.UnsignedExactlyWhen`), the layout pads too little in two cases
  (`NumberText.LengthExactlyWhen`), and is that of the C standard only under a condition
  (`CStandard.ConformsExactlyWhen`).
- `stdio.c:135` has no limit at all for a size of 0 (`Printf.SnprintfExactlyWhen`).
- `disk.c:64` takes sector 0 for already read (`GptTable.Table.FaithfulExactlyWhen`), and line 102 makes a
  partition one sector too short (`GptImage.ReadableExactlyWhen`).
- `pci.c:30` is the register of the last bus behind a bridge, not of the bus directly behind it, by the
  header layout of the PCI-to-PCI Bridge Architecture Specification (`PciPorts.SecondaryExactlyWhen`).

Three places that do not compile or have no defined result are read as intended: `fd->position` at
`fat.c:177` is `ffd->position`; `read_sectors` in `ide.c` returns the number of sectors read; and
`add_command` in `keyboard.c` returns true when it queued the command.

## What is taken for granted

- Heap: managed memory starts above address 0 and ends below 0xFFFFFF00; no node passes the test for a fit
  that is too small; header and padding fit a signed char, so the alignment is at most 116; every length
  freed is at least 8 bytes; freed bytes are not already free; pointers freed are live. Memory maps lie
  below 4 GiB.
- Terminal: no backspace arrives at the first cell on screen, where the source would read before the
  buffer.
- FAT: sectors have 512 bytes; the volume theorems are about volumes whose layout agrees with section
  "FAT Data Structure" of the FAT32 specification.
- PCI: the scan ends, that is, no path of bridges from the bus scanned leads into a circle.
- GPT: the entry size is 128, 256 or 512, so that no entry crosses a sector.
- Drives, configuration ports, memory allocation in the GPT reader and the argument stack are
  parameters: functions from addresses or request numbers to what the hardware or the caller supplies.

## Model

| member | source | states |
|---|---|---|
| Heap.Heap.FreeMemory | src/kernel/libc/memory.c:53-93 | free_memory, on nodes stored in the freed bytes themselves: the list stays canonical (ascending, non-empty gaps, at least 8 bytes each), covers exactly the old bytes and the freed ones, grows by `length`, and no byte outside free memory changes |
| Heap.Heap.Neighbours | src/kernel/libc/memory.c:60-67 | the walk along the links finds the nodes on either side of the freed address |
| Heap.Heap.WriteNode | src/kernel/libc/memory.c:69-92 | the words written and the new `start` for all four ways of touching neighbours; every other byte is unchanged |
| Heap.Heap.JoinOrLink | src/kernel/libc/memory.c:69-76 | where the freed node starts, and the link written when it does not join its left neighbour |
| Heap.Heap.AbsorbNext | src/kernel/libc/memory.c:84-88 | the node takes over size and link of the right neighbour it touches |
| FreeList.InsertEdit | src/kernel/libc/memory.c:53-93 | words written that way encode a canonical list again that covers exactly the old bytes and the freed ones, whatever neighbours were joined |
| FreeList.InsertCovers | src/kernel/libc/memory.c:69-88 | merging a range with the neighbours it touches adds exactly its bytes |
| FreeList.InsertCanonical | src/kernel/libc/memory.c:69-88 | merging keeps the list ascending with non-empty gaps |
| FreeList.SpliceLinked | src/kernel/libc/memory.c:69-92 | relinking one stretch of an in-memory list leaves a well-linked list |
| FreeList.CanonicalUnique | src/kernel/libc/memory.c:53-93 | a coalesced list is determined by the bytes it covers: two canonical lists over the same bytes are equal node for node |
| FreeList.TakeEdit | src/kernel/libc/memory.c:335-350 | taking bytes off the front of a node, with or without a remainder, leaves a canonical, correctly linked list |
| FreeList.TakeCovers | src/kernel/libc/memory.c:335-350 | exactly the bytes taken leave the list |
| Heap.Heap.Search | src/kernel/libc/memory.c:301-331 | for every size below 2^32, the loop finds the smallest node that passes the unsigned test for a fit, the lowest addressed among equals, with its predecessor and its own header-and-padding length, or none passes |
| HeapStates.BestStep | src/kernel/libc/memory.c:307-331 | one loop round, with the early skip of nodes no smaller than the best, keeps the best of the nodes seen |
| HeapStates.WrongFitExactlyWhen | src/kernel/libc/memory.c:301-331 | some node passes although none is large enough exactly when for some node the sum of size and padding wraps around at 32 bits and what is left of it fits; otherwise the test is right for every node |
| Heap.WrongFit | src/kernel/libc/memory.c:301-331 | a search for 0xFFFFFFF8 bytes that finds a node of 4 KiB |
| Heap.Heap.OffsetIn | src/kernel/libc/memory.c:316-320 | the padding arithmetic of the source comes to the header plus the remainder of its end by the alignment, and fits a signed char |
| Heap.Heap.Unlink | src/kernel/libc/memory.c:335-350 | the remainder node and the link around the block, written in place |
| Heap.Heap.WriteHeader | src/kernel/libc/memory.c:357-363 | the header, and in the byte before the payload the length in front of it, from which the block can be found again |
| Heap.Heap.AlignedAlloc | src/kernel/libc/memory.c:297-366 | NULL exactly for size 0 or when no node fits; otherwise a fresh block at the front of the best fit; invariant kept and no byte of a live block changed |
| Heap.Heap.Malloc | src/kernel/libc/memory.c:372-374 | the same with alignment 8 |
| Heap.Heap.Free | src/kernel/libc/memory.c:376-384 | finds the header through the byte at `ptr-1` and gives back exactly the block's bytes; bytes of other live blocks are unchanged |
| Heap.Heap.WritePayload | src/kernel/libc/memory.c:357-365 | an owner may write any payload byte: list, headers and partition survive |
| HeapStates.AllocPreserves | src/kernel/libc/memory.c:297-366 | an allocation keeps the partition of the managed bytes into free nodes and live blocks, and on NULL changes nothing |
| HeapStates.FreePreserves | src/kernel/libc/memory.c:376-384 | so does a free |
| HeapStates.RunPreserves | src/kernel/libc/memory.c:53-384 | conservation over every run: in each state free nodes and live blocks are pairwise disjoint and cover exactly the bytes first handed over, and the list is coalesced |
| HeapStates.RunRestores | src/kernel/libc/memory.c:53-384 | after any run that ends with the live blocks it began with, in whatever order they were freed, the free list is the starting one node for node |
| HeapUse.Serve | src/kernel/libc/memory.c:53-384 | the same of the real bytes: every action of any script of allocations, frees and payload writes takes effect in order, with the state of the heap, the pointers held and what was written at each moment; owners find what they wrote into blocks they still hold, and with the live blocks of the start back, so is the free list |
| HeapUse.Act | src/kernel/libc/memory.c:297-384 | one such action: an allocation or a free takes effect on the heap and on the pointers held, a write on what was written, and nothing else changes |
| HeapStates.SameLiveSameList | src/kernel/libc/memory.c:53-384 | the free list is a function of the live blocks |
| HeapStates.FreeUndoesAlloc | src/kernel/libc/memory.c:297-384 | freeing a block just allocated restores the whole heap state |
| HeapStates.PayloadsDisjoint | src/kernel/libc/memory.c:297-384 | over every run no payload byte belongs to another block or to the free list |
| HeapStates.HeadersKept | src/kernel/libc/memory.c:376-382 | headers are recovered as long as the bytes of live blocks are left alone |
| HeapStates.AlignedExactlyWhen | src/kernel/libc/memory.c:316-320 | the pointer is aligned exactly when the remainder is 0 or half the alignment (lines 318-320 pad by the remainder, not its complement) |
| HeapStates.MisalignedRun | src/kernel/libc/memory.c:316-320 | a run that shows it: after malloc(1) on fresh aligned memory, malloc(8) returns 0x1022 |
| HeapStates.FourByteRun | src/kernel/libc/memory.c:316-320 | malloc(4) twice on the same memory returns 0x1010 and 0x1020 and leaves a node at 0x1024 |
| HeapStates.SmallestChosen | src/kernel/libc/memory.c:301-331 | of a large and two equal small nodes that fit, malloc(16) takes the first small one, and returns 0x3010 |
| HeapStates.RunAligned | src/kernel/libc/memory.c:372-374 | over every run of malloc with sizes that are multiples of 4, on memory made of 4-byte groups, every pointer is 8-aligned |
| PhysicalMemory.WordRoundTrip | src/kernel/libc/memory.c:23-32 | a 32-bit field stored as four bytes reads back |
| PhysicalMemory.Ram.StoreWord | src/kernel/libc/memory.c:79-80 | storing a 32-bit field changes its four bytes only |
| MemoryMap.SortRegions | src/kernel/libc/memory.c:125-146 | the result as a function of the map, and sorted; since the exchange at line 143 loses a region, it holds the same regions exactly when the map was sorted already |
| MemoryMap.SortLosesRegion | src/kernel/libc/memory.c:140-143 | a map that loses a region |
| MemoryMap.SinkRegion | src/kernel/libc/memory.c:133-144 | one region sunk to its place, or a region lost |
| MemoryMap.FreeNonrestrictedMem | src/kernel/libc/memory.c:168-207 | performs exactly the frees of the specification, and returns their length |
| MapFrees.FreesWhole | src/kernel/libc/memory.c:174-204 | in a disjoint map the stretch is freed whole, in one piece |
| MapFrees.FreesInterval | src/kernel/libc/memory.c:174-204 | in any map what is freed is one interval up to `end` |
| MapFrees.ForbiddenExactlyWhen | src/kernel/libc/memory.c:195-197 | in any map, some byte of a region that is not available is freed exactly when such a region reaches into the stretch: `base` continues at its start, not after it |
| MapFrees.InvertedForbidden | src/kernel/libc/memory.c:174-204 | of a stretch that ends before it begins, such a byte is freed exactly when a region that is not available reaches over it and the loop gets that far |
| MapFrees.InvertedFrees | src/kernel/libc/memory.c:174-204 | and on a sorted map nothing else of it is freed: such regions up to its end |
| MapFrees.InvertedByteFreed | src/kernel/libc/memory.c:254-260 | a map and a kernel image for which a reserved byte is freed that way |
| MapFrees.StartupForbiddenExactlyWhen | src/kernel/libc/memory.c:226-276 | over the frees start-up makes, for any map, clamped: a byte of a region that is not available is among them exactly when such a region meets a stretch tried, or reaches over one that ends before it begins (the unsigned differences of lines 254-255 let these through) |
| MapFrees.RepairedSafe | src/kernel/libc/memory.c:195-197 | with `base` moved past the overlap, as the comment says, the loop frees on any sorted map no byte of a region that is not available, and none outside the stretch |
| MapFrees.RepairedComplete | src/kernel/libc/memory.c:195-197 | and all of the stretch that no other region takes |
| MapFrees.SuitableStartup | src/kernel/libc/memory.c:226-276 | on a disjoint map the frees of start-up are exactly the available bytes outside the kernel image, and the heap can take them |
| MapFrees.ClampedBytes | src/kernel/libc/memory.c:236-241 | clamping takes the bytes below the first available one off region 0, and leaves every other byte and all kinds as they were |
| MapFrees.StartupFreesUsable | src/kernel/libc/memory.c:226-276 | on a disjoint map as the firmware gives it the frees of start-up are exactly the bytes of its available regions outside the kernel image, of region 0 only those from the first available byte on, and the heap can take them |
| MemoryMap.FreeRegion | src/kernel/libc/memory.c:246-272 | one available region of any map whose frees the heap can take: exactly the frees of the stretches below and above the kernel image, or of the whole |
| MemoryMap.FreeAvailableRegions | src/kernel/libc/memory.c:226-276 | start-up performs exactly the frees specified for the clamped map, and returns the number of bytes they add |
| MemoryMap.MemoryInitialize | src/kernel/libc/memory.c:278-295 | from any map, sorted as the code does, to a valid heap that manages exactly the bytes freed; on a disjoint map these are the bytes of the given map's available regions outside the kernel image, of region 0 from the first available one on |
| MemoryMap.DisjointStartup | src/kernel/libc/memory.c:278-295 | sorting leaves a disjoint map alone, and of its bytes exactly the available ones outside the kernel image are freed, in region 0 from the first available one on |
| MemoryMap.ReservedByteFreed | src/kernel/libc/memory.c:195-197 | a map after which the heap lists a reserved byte as free |
| VgaText.Vga.SetChar | src/kernel/arch/i686/vga_text.c:16-20 | one cell, a character byte and a colour byte, gets a character and the default colour; no other changes |
| VgaText.Vga.Scrollback | src/kernel/arch/i686/vga_text.c:107-123 | the in-place copy moves every row up and blanks the rows that come free, whatever the overlap |
| VgaText.Vga.BackUp | src/kernel/arch/i686/vga_text.c:59-69 | the cursor goes one column back, or to just after the text of the row above |
| VgaText.Vga.FindTextEnd | src/kernel/arch/i686/vga_text.c:61-68 | the scan from the right edge stops just after the last used cell of the row |
| VgaText.Vga.WrapAndScroll | src/kernel/arch/i686/vga_text.c:77-85 | wrapping and scrolling refine the unbounded terminal's |
| VgaText.Vga.PutChar | src/kernel/arch/i686/vga_text.c:44-86 | one byte: the 80x25 window follows the unbounded terminal, all accesses in bounds |
| VgaText.Vga.PutString | src/kernel/arch/i686/vga_text.c:44-86 | for every byte stream with no backspace at the first cell on screen, the video memory holds the last 25 rows of an unbounded terminal run on the same stream, each character followed by the default colour |
| VgaText.Vga.ClearScreen | src/kernel/arch/i686/vga_text.c:91-102 | blank cells and the cursor at the origin |
| Terminal.HistoryKept | src/kernel/arch/i686/vga_text.c:107-123 | a row that has scrolled off never changes |
| Terminal.TextFillsCells | src/kernel/arch/i686/vga_text.c:72-81 | printable text fills consecutive cells across line ends; nothing else changes |
| Terminal.ControlsMove | src/kernel/arch/i686/vga_text.c:47-57 | tab, newline and return change no cell; they move the cursor to the next stop of four, to the beginning of the next row, and to that of its own |
| Terminal.LinesShown | src/kernel/arch/i686/vga_text.c:44-86 | lines printed from the beginning of a row, with nothing ahead, are shown one below the other and stay, however far the screen scrolls |
| Terminal.BackspaceToText | src/kernel/arch/i686/vga_text.c:58-69 | at the beginning of the row below a line of text, backspace takes the cursor to just after the text |
| Terminal.BackspaceUndoesPrint | src/kernel/arch/i686/vga_text.c:58-75 | backspace takes back a printed character, across a wrap or a scroll |
| Disk.Drive.ReadSector | src/kernel/arch/i686/ide.c:121-172 | one sector or an error; the buffer changes only on success |
| Disk.Partition.ReadSector | src/kernel/disk.c:115-122 | sectors beyond the partition are refused, the others are shifted by its start |
| FatFile.Fat.NextCluster | src/kernel/fat.c:148-164 | the cached look-up gives the 28-bit number in the cluster's four bytes of the table, or the bad-cluster mark after a failed read or beyond the partition; a failed read never leaves a usable stale sector |
| FatTable.EntryInTable | src/kernel/fat.c:148-164 | what follows cluster c is the 28-bit little-endian number in bytes 4c to 4c+3 of the table, whose sectors lie one behind the other, or the bad-cluster mark if they cannot be read |
| FatTable.EntryWraps | src/kernel/fat.c:149 | the two high bits of a cluster number do not count |
| FatTable.ChainInTable | src/kernel/fat.c:182-193 | clusters that the table links one after the other are the chain the cursor walks |
| FatTable.TableHasChain | src/kernel/fat.c:182-193 | and every chain that is walked stands in the table |
| FatTable.FileByteOnDisk | src/kernel/fat.c:139-201 | byte i of a file is on the drive in the cluster that stands at its place in the table's chain, counted from the first data sector on |
| FatFile.File.SeekCluster | src/kernel/fat.c:182-193 | from any cursor the walk ends at the wanted place of the chain, or fails; it terminates on cyclic tables |
| FatFile.File.LoadFileBuffer | src/kernel/fat.c:175-201 | success exactly when no request fails and the sector can be reached; then the buffer is that sector of the chained file |
| FatFile.File.Open | src/kernel/fat.c:443-451 | a file just opened has its first sector in the buffer |
| FatFile.File.ReadOn | src/kernel/fat.c:291-312 | one round of the loop copies the right slice and keeps the buffer at the sector of the position |
| FatFile.File.Read | src/kernel/fat.c:279-314 | the bytes returned are the file's bytes from the position on; as many as requested or left, or a correct prefix and the error flag; the end-of-file flag exactly |
| FatVolume.BytesJoin | src/kernel/fat.c:291-312 | consecutive slices of a file are one slice |
| FatVolume.BytesInSector | src/kernel/fat.c:292-296 | a slice within one sector is a slice of that sector |
| FatVolume.InitPartition | src/kernel/fat.c:203-273 | mounted with the computed geometry exactly when a boot signature is there: line 247 overwrites the other checks |
| FatVolume.MountsUnchecked | src/kernel/fat.c:240-256 | a boot record that fails those checks and is mounted |
| FatVolume.MountsTwo | src/kernel/fat.c:218-237 | the geometry of two volumes, one with the 32-bit fields and one with the 16-bit ones and a root directory of its own |
| FatVolume.DataBehindTables | src/kernel/fat.c:227-234 | the data area begins behind the reserved sectors, all copies of the table and the fewest sectors that hold the root directory |
| FatVolume.GeometryOf | src/kernel/fat.c:218-237 | the geometry with 32-bit wrap-around is that of the FAT specification on well-formed volumes |
| FatVolume.ClusterSectorLba | src/kernel/fat.c:139-146 | clusters 2 to count+1 number the sectors from the first data sector on without gaps, wrap-around or overrun |
| FatVolume.AddressThenCluster | src/kernel/fat.c:139-146 | different clusters or sectors have different addresses |
| FatVolume.ClusterThenAddress | src/kernel/fat.c:139-146 | every sector of the cluster area belongs to some cluster |
| FatVolume.FatLookupsBelowData | src/kernel/fat.c:148-151 | table look-ups of those clusters stay between the first table sector and the data area |
| FileStreams.ReadRun | src/kernel/fat.c:279-314 | any sequence of reads returns consecutive slices with lengths min(requested, left); after an error what was returned is still a prefix |
| FileStreams.LengthsTotal | src/kernel/fat.c:279-314 | together they return min(sum of the requests, what is left) |
| FileStreams.FGetC | src/kernel/libc/stdio.c:170-176 | the next byte, or EOF |
| FileStreams.FGetS | src/kernel/libc/stdio.c:178-193 | stores the line up to newline, limit, end of file or the byte 0xFF, then NUL; NULL when nothing was stored; the file stands behind what was taken, so that calls compose; an error has a cause in the drive or the chain |
| FileStreams.WholeLineExactlyWhen | src/kernel/libc/stdio.c:182-183 | a whole line is returned exactly when it has no byte 0xFF, which a signed char confuses with EOF |
| FileStreams.LineCutOff | src/kernel/libc/stdio.c:182-183 | a line that is cut off |
| FileStreams.LinesReturned | src/kernel/libc/stdio.c:178-193 | lines without the byte 0xFF and below the limit, joined by newlines, come back one per call, newline included |
| Keyboard.Keyboard.AddCommand | src/kernel/keyboard.c:490-509 | the ring slot arithmetic implements appending to a FIFO of at most 10 |
| Keyboard.Keyboard.NextCommand | src/kernel/keyboard.c:514-518 | dropping the head and starting the next |
| Keyboard.Keyboard.ContinueInit | src/kernel/keyboard.c:579-616 | the callback, re-entering add_command while its command is still queued, follows the protocol |
| Keyboard.Keyboard.OnKeyboardSendByte | src/kernel/keyboard.c:523-577 | the ring driver refines the protocol on every byte, and hands the decoder exactly the bytes no command takes |
| KeyboardProtocol.CompleteShape | src/kernel/keyboard.c:541-545 | completing calls back before popping: at most one command joins, the head leaves, the next is started |
| KeyboardProtocol.HandlePreserves | src/kernel/keyboard.c:490-577 | every byte and every request keeps the protocol invariant |
| KeyboardProtocol.RunOrderly | src/kernel/keyboard.c:490-577 | over every run: at most 10 commands wait, each completes once, in order and exactly when it leaves, each is only sent its own bytes, none while it waits behind another, and at most 8 of them |
| KeyboardSends.StepSends | src/kernel/keyboard.c:490-577 | every event sends at most one byte, for the command at the head of the queue after it, so none for a completed or waiting one |
| KeyboardSends.RunForward | src/kernel/keyboard.c:490-577 | over every run the bytes sent belong to commands in the order in which these were accepted |
| KeyboardProtocol.ResendRepeatsExactlyWhen | src/kernel/keyboard.c:533-541 | a resend request repeats the byte sent last exactly when no subcommand is out, or two resends of it were made, or the bytes are equal (lines 534-535 change the code for the next time) |
| KeyboardSends.ResendDiffers | src/kernel/keyboard.c:533-541 | a run in which it is not repeated |
| KeyboardInit.InitRunSound | src/kernel/keyboard.c:523-616 | over every byte stream the initialisation invariant holds |
| KeyboardInit.InitCommandsInOrder | src/kernel/keyboard.c:579-616 | the commands queued are a prefix of F5, F0 02, F0 00, F4, one at a time, and waiting ends only with success, with a command that failed, or with an answer other than 2 to the query |
| KeyboardInit.InitializedOnlyWhenDone | src/kernel/keyboard.c:600-614 | INITIALIZED is reached only after all four commands succeeded, with six acknowledgements and the answer 2 |
| KeyboardInit.HealthyKeyboardInitialised | src/kernel/keyboard.c:637-664 | seven proper answers do initialise the keyboard, which was sent the bytes F5, F0, 02, F0, 00 and F4 |
| KeyboardBytes.BytesAccountedFor | src/kernel/keyboard.c:523-577 | over every run the decoder gets, in order, exactly the received bytes that no waiting command took as a resend request, an acknowledgement or the answer awaited; each answer taken completes a command |
| KeyboardBytes.NothingTaken | src/kernel/keyboard.c:525-528 | without a command everything received reaches the decoder |
| KeyboardBytes.PassedAfterwards | src/kernel/keyboard.c:525-528 | once the initialisation is over, so does every byte |
| KeyboardBytes.KeysAfterwards | src/kernel/keyboard.c:338-528 | and keys pressed from then on give one event each, with their keycode and direction |
| KeyboardBytes.KeysOfHealthyKeyboard | src/kernel/keyboard.c:338-664 | of a keyboard that was initialised by its seven answers the decoder gets the keys and nothing else |
| KeyboardBytes.TenWait | src/kernel/keyboard.c:490-509 | of requests made while the keyboard is silent the first ten are accepted, and only the first is sent |
| KeyboardBytes.CommandServed | src/kernel/keyboard.c:490-577 | a command to a keyboard that acknowledges: code and subcommand are sent once each, in this order, it completes with success and the answer, and no byte reaches the decoder |
| KeyboardBytes.CommandGivenUp | src/kernel/keyboard.c:532-546 | four resend requests in a row: the code was sent four times, and the command completes without success |
| Scancodes.ScancodeReader.OnKeyPressed | src/kernel/keyboard.c:428-474 | one byte in the fixed buffer follows the decoder on values |
| Scancodes.ScancodeReader.OnScancodes | src/kernel/keyboard.c:428-474 | whole scancodes always find room |
| Scancodes.ScancodeReader.OnKeysPressed | src/kernel/keyboard.c:428-474 | so does every stream that keeps within the buffer, and it is decoded as on values |
| Scancodes.ScancodeReader.RegisterHandler | src/kernel/keyboard.c:669-671 | from then on events are delivered; the decoder's state stays as it is |
| Scancodes.CodeDecoded | src/kernel/keyboard.c:338-384 | a whole scancode gives one event with the right keycode and direction, and empties the buffer |
| Scancodes.DecodedExactlyWhen | src/kernel/keyboard.c:435-448 | exactly when its byte is no prefix byte and starts no longer sequence |
| Scancodes.FitsExactlyWhen | src/kernel/keyboard.c:428-448 | which byte streams keep within the eight-byte buffer: exactly those in which, from a point where it is empty, no eight bytes that end no scancode are followed by another |
| Scancodes.PauseOverflows | src/kernel/keyboard.c:445-448 | the Pause key and one more byte are such a case |
| Scancodes.StreamDecoded | src/kernel/keyboard.c:338-474 | any concatenation of scancodes is decoded to one event each |
| ScancodeKeys.ModifierFollowsLast | src/kernel/keyboard.c:386-408 | shift, alt, control and GUI are each on exactly when the last event of one of their two keys was a press |
| ScancodeKeys.FunctionNeverChanges | src/kernel/keyboard.c:401-403 | no scancode changes the function modifier |
| ScancodeKeys.LockIsParity | src/kernel/keyboard.c:410-422 | Caps Lock, Num Lock and Scroll Lock are each the parity of the presses of their key |
| ScancodeKeys.RowsNumbered | src/kernel/keyboard.c:75-113 | the keycodes number the keys of the five main rows from left to right |
| ScancodeKeys.KeypadNumbered | src/kernel/keyboard.c:111-122 | and those of the keypad rows, except for its 6 |
| ScancodeKeys.BottomRowNumbered | src/kernel/keyboard.c:75-165 | and those of the bottom row |
| ScancodeKeys.KeysDistinctExactlyWhen | src/kernel/keyboard.c:75-165 | two keys have the same keycode, other than that of Escape, exactly when they are the same or 6 and 7 on the keypad (line 117) |
| ScancodeKeys.UnknownIsEscape | src/kernel/keyboard.c:338-342 | a scancode outside the table gives the event of Escape |
| PrintNum.DigitBuffer | src/kernel/libc/format_print.c:78-83 | 64 places are enough, and the buffer read backwards is the number's digits |
| PrintNum.PrintNumber | src/kernel/libc/format_print.c:50-190 | print_num emits exactly the specified layout and returns its length |
| PrintNum.PrintFront | src/kernel/libc/format_print.c:92-163 | padding on the left, sign and prefix in their three arrangements |
| NumberText.DigitsRoundTrip | src/kernel/libc/format_print.c:78-83 | the digits read back as the number |
| NumberText.LengthExactlyWhen | src/kernel/libc/format_print.c:86-187 | max(width, sign + prefix + max(digits, precision)) characters are printed exactly when that fills the width or neither short case (zero with precision 0; '#' outside base 16 padded with blanks) applies |
| NumberText.PaddingShort | src/kernel/libc/format_print.c:96-179 | two layouts that come out short of their width |
| NumberText.PrintedReadsBack | src/kernel/libc/format_print.c:50-190 | reading sign, prefix and digits back gives the number, times the base for every zero padded on behind it |
| NumberText.ReadsBackExactlyWhen | src/kernel/libc/format_print.c:181-187 | so it reads back exactly when it is 0 or nothing was padded on behind ('-' with '0') |
| TextShapes.SameText | src/kernel/libc/format_print.c:96-179 | with the same digits, two texts are equal exactly when all their parts are: blanks, sign, base indication, zeros |
| TextShapes.SpreadExactlyWhen | src/kernel/libc/format_print.c:78-179 | two sets of flags lay a number out alike exactly when the numbers of blanks and zeros, sign and base indication they call for agree |
| CStandard.ConformsExactlyWhen | src/kernel/libc/format_print.c:78-179 | for every number, width, precision and flags, the layout of d, i, u, o, x and X is what section 7.19.6.1 of ISO C99 asks for exactly when an explicit condition on them holds |
| CStandard.LettersDeviate | src/kernel/libc/format_print.c:78-179 | %x of 10 prints a capital letter |
| CStandard.OctalDeviates | src/kernel/libc/format_print.c:78-179 | %#o of 8 prints no leading zero |
| CStandard.OctalZeroDeviates | src/kernel/libc/format_print.c:78-179 | %#o of 0 prints two zeros |
| CStandard.BlankDeviates | src/kernel/libc/format_print.c:78-179 | the space flag puts a blank in front of an unsigned number |
| CStandard.ZerosDeviate | src/kernel/libc/format_print.c:78-179 | %-03d of 7 prints 700 |
| PrintNum.Printer.PrintChar | src/kernel/libc/stdio.c:134-142 | a character is stored only while there is room |
| PrintNum.OverwriteAt | src/kernel/libc/stdio.c:134-142 | exactly the addresses of the stored characters change |
| NumberReaders.ParseInt | src/kernel/libc/format_print.c:197-209 | parseint: the value of the digits as a 32-bit int holds it, and where they end |
| NumberReaders.ToInt | src/kernel/bash.c:12-27 | to_int: the value of the hexadecimal digits modulo 2^32, up to the end of the command line |
| NumberReaders.DecimalRoundTrip | src/kernel/libc/format_print.c:197-209 | parseint reads back any 0 <= n <= INT_MAX that print_num printed in base 10 and stops just after it |
| NumberReaders.HexRoundTrip | src/kernel/bash.c:12-27 | to_int reads back any n < 2^32 that print_num printed in base 16, zero-padded or not, and stops just after it |
| FormatText.Call.FlagsInForce | src/kernel/libc/format_print.c:240-257 | the flags of a directive are its own together with those already in force |
| FormatText.FlagsExactlyWhen | src/kernel/libc/format_print.c:372-378 | whatever text directives stand for, leaving flags in force prints the same as resetting them for every directive when, and only when, each repeats all flags before it |
| FormatText.KeptIsInForce | src/kernel/libc/format_print.c:372-378 | what is printed is what would be printed with flags reset once the piled-up flags are written out |
| FormatText.Call.OutputsAgreeExactlyWhen | src/kernel/libc/format_print.c:372-378 | a call prints what it would print with flags reset if, and unless '#' is left over for a decimal or octal number only if, the flags left over spread no directive's number out differently, as told from its flags, width, precision and number |
| FormatText.Call.ChangesCancel | src/kernel/libc/format_print.c:372-378 | why not with a left-over '#': "% #%%.0d%3d" of 0 and 7 prints the same although two directives come out changed |
| FormatText.Call.FlagsLeak | src/kernel/libc/format_print.c:372-378 | a call for which they show: "%+d%d" of 1 and 2 prints "+1+2" instead of "+12" |
| FormatText.Call.HarmlessLeak | src/kernel/libc/format_print.c:372-378 | a format that does not repeat flags and prints the same: "%+d%s" |
| FormatText.Call.PlainFormat | src/kernel/libc/format_print.c:229-239 | a format without directives is printed as it is |
| FormatText.Call.UnsignedExactlyWhen | src/kernel/libc/format_print.c:347-356 | an argument printed unsigned is the number passed exactly when it is a long long or fits an int (it is fetched as an int) |
| FormatText.Call.UnsignedWidened | src/kernel/libc/format_print.c:347-356 | %x of 0x80000000 prints FFFFFFFF80000000 |
| FormatText.Call.PaddedHexReadBack | src/kernel/libc/format_print.c:226-385 | a zero-padded hexadecimal directive whose width print_num wrote: parseint, the scanner, print_num and to_int together give the number back |
| FormatPieces.DirectiveScanned | src/kernel/libc/format_print.c:240-301 | a directive, put together from flags, width, precision, length modifiers and specifier, is scanned as it was written; stars take the arguments for width and precision in this order |
| FormatPieces.PiecesPrinted | src/kernel/libc/format_print.c:211-386 | every format written from text and such directives prints them one after the other, each with the arguments behind those of the ones before |
| FormatLaws.CharacterPrinted | src/kernel/libc/format_print.c:304-307 | %c between text prints the character in the low byte of its argument |
| FormatLaws.StringPrinted | src/kernel/libc/format_print.c:308-315 | %s between text prints the text at the address that is its argument |
| FormatLaws.PercentPrinted | src/kernel/libc/format_print.c:316-319 | %% between text prints a percent sign |
| FormatLaws.SignedPrinted | src/kernel/libc/format_print.c:320-325 | %d and %i print their argument as a signed int in base 10 |
| FormatLaws.UnsignedPrinted | src/kernel/libc/format_print.c:326-342 | %u, %x, %X, %p and %o print it without a sign in base 10, 16, 16, 16 and 8, those from 0x80000000 on as 64-bit numbers |
| FormatLaws.StringThenCharacter | src/kernel/libc/format_print.c:302-315 | %s%c: one word each, in this order |
| FormatLaws.CharacterThenNumber | src/kernel/libc/format_print.c:302-325 | %c%d: one word each |
| FormatLaws.LongThenString | src/kernel/libc/format_print.c:347-368 | %lld%s: two words, the low one first, and the third |
| FormatLaws.StarThenNumber | src/kernel/libc/format_print.c:258-263 | %*d: the width, then the number |
| Printf.ScanStep | src/kernel/libc/format_print.c:240-301 | every scanner state inside a directive leads to the directive of the reference, and consumes a character or goes on to a lower state |
| Printf.Step | src/kernel/libc/format_print.c:226-383 | one loop round: printed so far plus remaining output is unchanged, and the measure (characters left, state) falls |
| Printf.FormatPrint | src/kernel/libc/format_print.c:211-386 | the state machine prints exactly the reference output, returns its length, ends, and never steps past the terminator |
| Printf.VsnPrintf | src/kernel/libc/stdio.c:287-298 | memory changes by exactly the text stored; returns the length of the unlimited output |
| Printf.SnprintfExactlyWhen | src/kernel/libc/stdio.c:287-298 | for n >= 1 that is the first min(n-1, L) characters and NUL; it stays within the n bytes exactly when n >= 1, as n = 0 wraps around to no limit |
| Printf.SizeZeroWrites | src/kernel/libc/stdio.c:134-140 | a size of 0 for which four characters are written |
| PciConfig.FieldsAddUp | src/kernel/arch/i686/pci.c:47-48 | the configuration address, put together by shifts and bitwise operations, is the sum of its fields |
| PciConfig.AddressDetermines | src/kernel/arch/i686/pci.c:47-48 | different bus, device, function or double word: different configuration address, as the bitwise expression gives it |
| PciConfig.RegisterBytes | src/kernel/arch/i686/pci.c:52-53 | the sign-extending shift still gives the right bytes and half words |
| Pci.Scanner.ReadRegister | src/kernel/arch/i686/pci.c:39-54 | asks for the right double word and returns, in its low bytes, the byte, half word or double word that starts at the offset |
| Pci.Scanner.CheckFunction | src/kernel/arch/i686/pci.c:56-79 | lists everything behind a bridge, then the function itself |
| Pci.Scanner.ScanDevice | src/kernel/arch/i686/pci.c:81-98 | function 0, and the present ones among 1 to 7 of a device that has several |
| Pci.Scanner.ScanBus | src/kernel/arch/i686/pci.c:100-104 | the scan ends, and device_list becomes the reverse of the post-order in front of what it held |
| Pci.Scanner.Initialize | src/kernel/arch/i686/pci.c:110-116 | the scan of start-up ends, if no circle of bridges can be reached from bus 0, and lists exactly the functions that the words of the ports show to be there and to which a path of bridges leads |
| PciPorts.MetFound | src/kernel/arch/i686/pci.c:56-98 | what the scan reads, in terms of the words of the ports: vendor in word 0, header type in word 0xC, class and subclass in the high half of word 8, a bridge being 0x0604 there, and the bus to go on with in byte 2 of word 0x18 |
| PciPorts.ReachableListed | src/kernel/arch/i686/pci.c:56-104 | so the functions reachable are those found along paths of bridges in these words |
| PciPorts.SecondaryExactlyWhen | src/kernel/arch/i686/pci.c:30-62 | the scan goes on with byte 2 of word 0x18, which holds the last bus behind a bridge, instead of byte 1, the bus directly behind it: it follows the right paths exactly when the two agree for every bridge listed that has anything on either |
| PciPorts.BusMissed | src/kernel/arch/i686/pci.c:30-62 | a machine with a function on bus 1 that is not listed |
| PciTree.EndsExactlyWhen | src/kernel/arch/i686/pci.c:56-104 | the scan of a bus, which calls itself for the bus behind every bridge, ends exactly when no path of bridges from it leads into a circle |
| PciTree.RisingEnds | src/kernel/arch/i686/pci.c:60-63 | it ends in particular if every bridge leads to a bus with a higher number |
| PciTree.ReachableExactly | src/kernel/arch/i686/pci.c:56-104 | a scan lists exactly the functions to which a path of bridges leads |
| PciTree.BehindFirst | src/kernel/arch/i686/pci.c:60-74 | everything behind a bridge is met before the bridge: post-order |
| PciTree.OnceExactlyWhen | src/kernel/arch/i686/pci.c:56-104 | every function is listed once exactly when no occupied bus lies behind two bridges met |
| LinkedList.List.AddTail | src/kernel/util/list.c:16-32 | appends to the pointer-linked list, or returns -1 and changes nothing |
| LinkedList.List.AddHead | src/kernel/util/list.c:45-53 | prepends, or returns -1 and changes nothing |
| LinkedList.List.Distinct | src/kernel/util/list.c:28-30 | a node occurs only once, so the walk to the tail ends |
| Gpt.Reader.LoadSector | src/kernel/disk.c:72-83 | the cached sector is the one the entry lies in; 64-bit wrap-around cannot happen |
| Gpt.Reader.ReadEntry | src/kernel/disk.c:71-110 | one entry: kept if used, or the reason it was refused |
| Gpt.Reader.ReadGpt | src/kernel/disk.c:39-113 | the list grows by the used entries in table order up to the first refusal, with one request per sector; a bad header or read leaves it alone |
| Gpt.Reader.Complete | src/kernel/disk.c:63-110 | with successful reads and allocations: all used entries, the right count, each table sector read exactly once |
| GptTable.Table.UsedInOrder | src/kernel/disk.c:87-90 | used entries appear in ascending table order |
| GptTable.Table.AllUsed | src/kernel/disk.c:87-90 | and all of them do |
| GptTable.Table.UsedDescribed | src/kernel/disk.c:87-106 | the descriptions listed are those of the entries with these indices, in the same order |
| GptTable.Table.EachSectorOnce | src/kernel/disk.c:75-83 | the number of reads is the number of sectors the entries occupy |
| GptTable.Table.FaithfulExactlyWhen | src/kernel/disk.c:63-83 | the first n entries are found as the table has them exactly when it does not start in sector 0, which the cache takes for already read, or what they take of sector 0 equals the header |
| GptTable.UnfaithfulTable | src/kernel/disk.c:63-83 | a table in sector 0 whose first entry is misread |
| GptImage.EntryDescribed | src/kernel/disk.c:27-34 | an entry put together from type, GUID, first and last sector, attributes and name is described by these, and used exactly when its type is not zero |
| GptImage.SignedExactlyWhen | src/kernel/disk.c:57-61 | a sector is taken for a header exactly when it begins with the letters EFI PART |
| GptImage.HeaderRead | src/kernel/disk.c:10-25 | start, number and size of the entries are found where they were written in the header |
| GptImage.ImageRead | src/kernel/disk.c:39-113 | reading a drive with a table written on it appends its entries in use, in order, with the fields that were written |
| GptImage.ReadableExactlyWhen | src/kernel/disk.c:101-122 | of the sectors of a partition, first to last, all can be read but the last: the size kept is one short |
| GptImage.LastSectorRefused | src/kernel/disk.c:101-122 | a one-sector partition whose sector is refused |
| GptTable.AllStoredExactlyWhen | src/kernel/disk.c:108-109 | the count equals the number of listed entries exactly when every list node got its memory |

## Left out

- Heap.Heap.FreeMemory: not for fewer than 8 bytes, where the node written would reach beyond the bytes
  freed.
- Heap.Heap.AlignedAlloc: not for alignments above 116, whose padding overflows the `char` it is kept in,
  nor for requests for which a node that is too small passes the test for a fit, as
  `HeapStates.WrongFitExactlyWhen` says: the header and the remainder then overwrite each other.
- Heap.Heap.Malloc: not for the latter either.
- HeapUse.Serve: its scripts ask for no sizes within 127 bytes of 2^32.
- MemoryMap.FreeNonrestrictedMem: not for maps that lead to frees of fewer than 8 bytes or of bytes already
  free, of which the heap makes nothing sensible; which bytes are handed to it is the subject of `MapFrees`
  for every map.
- MemoryMap.FreeRegion: likewise.
- MemoryMap.FreeAvailableRegions: likewise.
- MemoryMap.MemoryInitialize: likewise.
- FormatText.Call.OutputsAgreeExactlyWhen: with a '#' left over for a decimal or octal number, only in the
  first direction, since changes can then make up for each other (`FormatText.Call.ChangesCancel`).
- CStandard.ConformsExactlyWhen: not for '#' with d, i and u, which the standard leaves undefined, nor for the
  grouping flag, which is not part of it.
- Pci.Scanner.CheckFunction: not for running out of memory, which stops the kernel.
- Pci.Scanner.ScanDevice: likewise.
- Pci.Scanner.ScanBus: likewise.
- Pci.Scanner.Initialize: likewise.
- Gpt.Reader.ReadGpt: not for entry sizes other than 128, 256 and 512, for which entries cross the end of
  the buffer.
- Memory: `calloc` and `realloc` (the first does not clear, the second copies the wrong way), a
  zero-length free, the debug output and the region table print-out.
- Terminal: the hardware cursor, and colours other than the default one.
- FAT: directory search and path opening (its sector loop never moves on), writing, file times and long
  names; the FAT12/FAT16 format message; a boot record that cannot be read. A boot record with zero
  sectors per cluster, which divides by zero.
- Streams: opening, closing, the table of files and buffering modes.
- Keyboard: the pressed-key bitmap and the ascii tables, Pause and Print Screen release (the decoder
  mishandles them), the choice of the PS/2 port.
- printf: `char_count` beyond 2^31, the other printing functions, `hexdump`; `%s` of a string that
  overlaps the output.
- PCI: starting the IDE driver for the devices found, and the check for configuration method 1.
- GPT: checksums, the backup header and freeing the buffer.
- FormatPieces.PiecesPrinted: not for formats that end within a directive, nor for a width written with
  leading zeros, which are flags, or numbers above INT_MAX, whose digits wrap around
  (`NumberReaders.ParseInt`).
- Linked list: removal.
- Port I/O, interrupts, ACPI, the boot loader, the event queue, the shell's commands and the string
  functions: hardware plumbing or easy members.
