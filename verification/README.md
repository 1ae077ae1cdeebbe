# KNOS: a Dafny model of its disk tool, boot readers, frame allocator and console

KNOS is a small x86-64 kernel with its own floppy tooling. This project models the
parts of it that carry state and proves what they promise. It stands alone; checking
everything is

    dafny verify --resource-limit 2000000 --verification-time-limit 0 dfyconfig.toml

**The FAT12 volume.** `tools/fat12img.py` formats an image, saves and deletes files and
reads them back. The image is a sequence of bytes (`ImageBytes`); the 12-bit table
(`FatTable`), the links (`Chains`), the directory records (`Directory`) and the data
clusters (`ClusterStore`) are views of it. `Volume` holds the commands as state steps and
the invariant, `Ownership` the partition of the table into chains, `VolumeRefinement` the
refinement to a plain map from directory slots to files, `VolumeRuns` runs of commands.
`Fat12Tool` has the tool's classes `Fat` and `DirInfo` with their fields updated in place,
each method proved against those steps. The layout follows the Microsoft FAT
specification (fatgen103), sections "FAT Data Structure", "FAT Type Determination" and
"FAT Directory Structure".

**The boot readers.** `bootloader/boot.asm` and `bootloader/loader.asm` decode the same
table again and walk the same chains. `BootDisk` has the sector arithmetic and the table
decoder, `BootSearch` the directory search, `BootLoad` both loading loops, over a machine
with a memory array and a disk, `BootRuns` what is in memory after a run of the tool.

**The 2 MB page-frame allocator.** `kernel/memory.c`. `Words` defines `&`, `|`, `~`, `<<`
on 64-bit words, `FrameSearch` the skipping search, `FrameState` one call of
`alloc_pages`, `page_init` and `free_pages`, `FrameRuns` runs of calls with the holders of
each frame, `MemoryMap` the zones built from the memory map (ACPI Specification, section
15.1), `BootMemory` what initialisation leaves, `FrameAllocator` the class with its arrays,
`FrameExamples` maps and calls on which the allocator does less than it should.

**Formatting and the console.** `kernel/printk.c` and the two printers of
`bootloader/loader.asm`. `Digits` and `NumberFormat` give the text of a number,
`FormatScan` a directive and its scanning, `TextPieces` and `Formatter` the meaning of a
format and what a short buffer takes of it, `NumberWriter` and `FormatWriter` the code that
writes it (ISO C11, sections 7.21.6.1 and 7.21.6.12, with the differences below).
`ConsoleScreen` is the console as a ring of character cells, `ConsolePixels` the frame
buffer, `ConsoleDriver` the print loop.

## What the proofs found

Where the code does less than its documentation or its evident purpose, the model follows
the code; where a condition decides, the exact one is proved.

- A file is found again under its padded name exactly when that name does not end in a
  blank (`VolumeRuns.DeleteFindsSaved`), that is, when its extension has three characters
  with a non-blank third (`VolumeRuns.PaddedNameEnd`).
- `load` uses the index that `find` returns as if it were a record
  (`tools/fat12img.py:246-253`), so it cannot run; modelled is its read loop on the entry
  at that index.
- Saving an empty file records the first free cluster without taking it, and fails on a
  full table (`VolumeRefinement.SaveTable`, `VolumeRefinement.SaveVerdict`).
- The boot sector's load offset is 16 bits wide: a loader of more than 128 sectors
  overwrites its own start, and is in order exactly when the bytes written over are equal
  (`BootLoad.SegmentSector`, `BootLoad.SegmentStart`, `BootLoad.SegmentInOrder`,
  `BootRuns.LoaderStart`, with 129 sectors `BootRuns.LongLoaderExample`).
- A block at frame 0 counts as "not found", so a zone that starts at frame 0 with a clear
  block serves no request that finds it (`FrameState.FrameZeroNotFound`,
  `FrameExamples.FrameZeroExample`).
- The block search skips clear blocks between its places (`FrameSearch.SearchExact`). It
  needs a clear run of 2n - 1 frames, above 64 of 2w - 1 where w is n less n % 64, and no
  smaller bound suffices for any size (`FrameSearch.SearchComplete`,
  `FrameSearch.BoundIsTight`).
- A request of more than 64 frames that is no multiple of 64 is given its last n % 64 frames
  without a look at them, held ones included (`FrameRuns.TornAccount`; from boot with
  memory from 128 MB to 2 GB, `FrameExamples.TornExample`).
- Each frame allocated is subtracted from `nr_free` twice, each frame freed is added once
  (`FrameState.AllocTakes`, `FrameRuns.Ledger`).
- Sharing a frame breaks the reference count exactly at the 16-bit limit
  (`FrameState.ShareAgrees`).
- A metadata frame right behind an earlier zone is charged to that zone
  (`BootMemory.BoundaryFrameMischarged`, `kernel/memory.c:364`), and the counters stay off by
  it (`BootMemory.LedgerFromBoot`, `FrameExamples.MischargedExample`).
- Frame 0 is given to the first zone in the list, wherever it lies: another zone that starts
  at frame 0 then holds a frame that is not its own (`BootMemory.ShapedIff`,
  `FrameExamples.FrameZeroElsewhere`).
- The self-test of the bitmap clears the bit it set "to restore it", which loses the mark of
  a reserved frame ten behind the first zone's start, and of no other
  (`BootMemory.SelfTestRestores`, `FrameExamples.SelfTestExample`); zone frames are not
  affected (`BootMemory.MetadataTaken`).
- Whatever flags, width and precision, `%u` prints the decimal text exactly for values below
  10 and `%o` the octal text exactly below 8, both without the `#` flag only
  (`Formatter.UnsignedIffSmall`).
- A negative precision argument counts as zero, where ISO C takes it as absent; for strings
  the two agree exactly on the empty string (`Formatter.NegativePrecision`).
- A `#` prefix is charged to the width twice, and in base 10 the `#` flag takes two
  characters off the width and prints none, which shortens the text exactly when the width
  exceeds what sign, prefix and digits need (`NumberFormat.PrefixedLength`).
- With exactly one character of room left at a `0x` prefix, the prefix is skipped and a
  digit written instead (`NumberFormat.EmitWithPrefix`).
- The terminator of a text as long as the buffer goes one past the buffer's size
  (`FormatWriter.Vsnprintf`, `Formatter.TerminatorOutside`); the model's buffer is one
  longer so that this write is defined.
- A tab ends in a column divisible by eight, wherever it starts, exactly when the number of
  columns is divisible by eight or divides eight (`ConsoleScreen.TabAligns`).

## Model

| member | source | states |
|---|---|---|
| FatTable.UnpackPack | tools/fat12img.py:32-52 | encoding any even-length list of 12-bit values and decoding it gives the list back |
| FatTable.PackUnpack | tools/fat12img.py:32-52 | decoding any table of whole triples and encoding it gives every byte back |
| FatTable.UnpackEntry | tools/fat12img.py:37-41 | entry n of the decoded list is the 12 bits at byte n + n/2 of the table, shifted by four for odd n |
| FatTable.WriteFatEffect | tools/fat12img.py:43-52 | after a write both copies are byte-identical and decode to the list written |
| FatTable.WriteFatFrame | tools/fat12img.py:48-52 | writing both copies changes nothing from the directory on |
| Chains.FreeFromTail | tools/fat12img.py:66-70 | searching on behind a free cluster finds exactly the rest of the ascending free list |
| Chains.CountBounds | tools/fat12img.py:189 | a file takes the least number of 512-byte clusters that hold its bytes, none if it is empty |
| Chains.LinkEffect | tools/fat12img.py:206-221 | linking ascending data clusters makes a chain that visits them in order, ends in 0xFFF and changes no other entry |
| Chains.ChainStable | tools/fat12img.py:75-85 | a chain depends only on its own entries |
| Chains.FreeChainEffect | tools/fat12img.py:78-85 | on a complete chain the freeing loop runs through and zeroes exactly that chain |
| Chains.FreeChainStops | tools/fat12img.py:78-85 | the loop stops behind an entry of 0xFF8 or more, raises on a cluster from 3072 on, and follows every other entry |
| Directory.NameLetters | tools/fat12img.py:17-24 | character i of the 8.3 name is character i of the stem up to 8 and of the extension from there on, a blank where these have ended |
| Directory.SameNameIff | tools/fat12img.py:17-24 | two stem and extension pairs share a name if and only if eight characters of the stems and three of the extensions are the same, blanks counting as none |
| Directory.RStripLJust | tools/fat12img.py:98-131 | stripping undoes the padding of a name, whatever blanks it carried |
| Directory.RecordLayout | tools/fat12img.py:96-101 | the 32 bytes of a live entry: name, attribute, ten zeros, time, date, cluster, size at their places, low bytes first |
| Directory.DeletedLayout | tools/fat12img.py:141-144 | a deleted entry is 0xE5 and 31 zeros |
| Directory.UnpackPackSlot | tools/fat12img.py:96-133 | a live or deleted slot packed into 32 bytes reads back with the same fields, the name stripped |
| Directory.WriteDirEffect | tools/fat12img.py:135-144 | when never-used slots come last, stopping at the first of them loses nothing: all 224 slots read back as written |
| ClusterStore.StoreFrame | tools/fat12img.py:179-217 | storing a file changes no byte outside its clusters |
| ClusterStore.ReadStored | tools/fat12img.py:179-217 | data stored over as many distinct clusters as it needs is read back whole |
| ClusterStore.LoadAlongChain | tools/fat12img.py:251-262 | the read loop that follows links reads the pieces along the chain and then stops |
| ClusterStore.LoadStops | tools/fat12img.py:251-259 | the loop reads up to 512 bytes at 0x3E00 + 512 c, follows every link, and raises on a cluster from 3072 on |
| Ownership.PartitionCount | tools/fat12img.py:54-85 | free clusters and clusters on chains add up to all 3070 data entries: none leaks |
| Ownership.SaveKeepsConsistent | tools/fat12img.py:202-221 | a save keeps chains complete, disjoint and as long as their sizes need, and every other slot keeps its chain |
| Ownership.DeleteKeepsConsistent | tools/fat12img.py:162-168 | a delete frees exactly the slot's chain and every other slot keeps its chain |
| Ownership.FreeUndoesSave | tools/fat12img.py:78-85 | freeing a chain just linked restores the list exactly |
| Ownership.FreeCount | tools/fat12img.py:54-64 | free clusters are 3070 less the clusters the live sizes need |
| Volume.ValidChain | tools/fat12img.py:75-85 | in a valid image each live slot's chain is complete, without repetition and ceil(size/512) long |
| Volume.WriteBackEffect | tools/fat12img.py:323-324 | after directory and table are written back, a reader sees the slots and the list written and two equal copies |
| VolumeRefinement.FreeClustersAgree | tools/fat12img.py:54-64 | the number of free clusters follows from the stored file sizes alone |
| VolumeRefinement.SaveVerdict | tools/fat12img.py:184-223 | a save succeeds if and only if the host file exists, some slot holds no file and the stored sizes leave enough free clusters, one at least; otherwise it changes nothing |
| VolumeRefinement.SaveRefines | tools/fat12img.py:184-223 | a save keeps the invariant and is the map update: same verdict, the saved bytes in the first free slot, all other files unchanged |
| VolumeRefinement.DeleteRefines | tools/fat12img.py:227-241 | a delete keeps the invariant and is the map removal of the first file of that name, with the same verdict |
| VolumeRefinement.DeleteVerdict | tools/fat12img.py:227-232 | a delete succeeds if and only if some slot holds a file of that very name; otherwise it changes nothing |
| VolumeRefinement.SaveTable | tools/fat12img.py:202-221 | the new chain is exactly the first k free clusters in ascending order; the slot becomes an entry with the stripped name, attribute 0x20, the time, the first free cluster and the size, and every other slot is the same |
| VolumeRefinement.SaveKeepsChains | tools/fat12img.py:206-221 | every other slot keeps its chain over a save |
| VolumeRefinement.DeleteTable | tools/fat12img.py:227-239 | a delete zeroes exactly the chain of the slot found, marks that slot only, and keeps all other chains |
| VolumeRefinement.SaveThenFree | tools/fat12img.py:78-85 | freeing a file right after its save gives the table of before |
| VolumeRuns.FormatValid | tools/fat12img.py:171-176 | a fresh image satisfies the invariant and holds no files |
| VolumeRuns.FormatBytes | tools/fat12img.py:171-176 | every one of its 1474560 bytes: 0xF0, 0xFF, 0xFF at 0x200 and at 0x1400, zero elsewhere |
| VolumeRuns.FormatTable | tools/fat12img.py:171-176 | its table reserves entries 0 and 1, leaves all others free, and its copies agree |
| VolumeRuns.RunRefines | tools/fat12img.py:171-241 | every run of format, save and delete, failed ones included, gives the verdicts and files of the same run on a plain map |
| VolumeRuns.RunsKeepChains | tools/fat12img.py:54-241 | after every run from a format: exact chain lengths, distinct data clusters, end mark 0xFFF, disjoint chains, no used entry off a chain, equal table copies, never-used slots last |
| VolumeRuns.FreshSave | tools/fat12img.py:184-196 | on a fresh image a save succeeds if and only if the file needs at most 3070 clusters |
| VolumeRuns.LoadReadsFile | tools/fat12img.py:251-262 | the read loop returns exactly the bytes of the file in any live slot |
| VolumeRuns.SaveThenLoad | tools/fat12img.py:184-262 | after a save the new slot reads the saved bytes and every other live slot reads what it read before |
| VolumeRuns.DeleteThenLoad | tools/fat12img.py:227-262 | after a delete every slot still live reads what it read before |
| VolumeRuns.RunKeepsChain | tools/fat12img.py:184-241 | a file keeps its slot and chain over any run that does not delete it |
| VolumeRuns.DeleteZeroesSavedChain | tools/fat12img.py:204-241 | whatever came between, deleting a saved file zeroes exactly the clusters its save took |
| VolumeRuns.DeleteFindsSaved | tools/fat12img.py:131-168 | a file just saved is found by delete if and only if its padded name does not end in a blank |
| VolumeRuns.PaddedNameEnd | tools/fat12img.py:17-24 | the padded name ends in a non-blank if and only if the extension has a non-blank third character |
| VolumeRuns.Blanks | tools/fat12img.py:131 | the ten ASCII characters a name loses at its end when it is read |
| Fat12Tool.Fat.constructor | tools/fat12img.py:32-41 | the field is the decoded first copy of the table |
| Fat12Tool.Fat.Write | tools/fat12img.py:43-52 | the image is the old one with both copies encoded |
| Fat12Tool.Fat.HaveSpace | tools/fat12img.py:54-64 | the first free cluster if enough are free |
| Fat12Tool.Fat.FindFreeCluster | tools/fat12img.py:66-70 | the head of the free list from a start |
| Fat12Tool.Fat.PutNext | tools/fat12img.py:72-73 | exactly one entry changes |
| Fat12Tool.Fat.DelChain | tools/fat12img.py:78-85 | the list is freed along the chain, with the early stop and the lookup error of the code |
| Fat12Tool.DirInfo.constructor | tools/fat12img.py:116-133 | the slots are those the 224 records decode to |
| Fat12Tool.DirInfo.Write | tools/fat12img.py:135-144 | records are written up to the first never-used slot |
| Fat12Tool.DirInfo.FindFreeIndex | tools/fat12img.py:146-150 | the first slot that is not live |
| Fat12Tool.DirInfo.Add | tools/fat12img.py:152-154 | exactly that slot becomes the new entry |
| Fat12Tool.DirInfo.Find | tools/fat12img.py:156-160 | the first live slot of exactly that name |
| Fat12Tool.DirInfo.DelFile | tools/fat12img.py:162-168 | exactly that slot is marked deleted and its entry returned |
| Fat12Tool.WriteCluster | tools/fat12img.py:179-181 | at most 512 bytes are written at the cluster's place |
| Fat12Tool.WriteFile | tools/fat12img.py:204-223 | with enough free clusters the loop never fails, stores the data in the first k of them and links exactly those |
| Fat12Tool.Save | tools/fat12img.py:184-223 | it succeeds exactly on an existing host file, enough space and a slot that is not live; a failure changes nothing |
| Fat12Tool.SaveCommand | tools/fat12img.py:313-324 | the image after the command is the state step of a save |
| Fat12Tool.DeleteCommand | tools/fat12img.py:227-241 | the image after the command is the state step of a delete |
| Fat12Tool.Load | tools/fat12img.py:251-262 | the loop returns what the read along the links gives, or stops where a lookup is out of range |
| BootDisk.ChsInvertible | bootloader/loader.asm:728-751 | the sector number is recovered from cylinder, head and sector, which stay on an 80-track disk |
| BootDisk.ChsReaches | bootloader/boot.asm:176-192 | every address of the geometry is the image of its sector number |
| BootDisk.Machine.ReadOneSector | bootloader/loader.asm:728-751 | the buffer receives exactly the bytes of the sectors asked for |
| BootDisk.Machine.GetFATEntry | bootloader/loader.asm:757-791 | the value returned is the 12-bit entry of the table on disk, also across two sectors; only the buffer changes |
| BootDisk.DecodersAgree | bootloader/boot.asm:216-250 | for every index below 3072 the boot decoders see the entry of the tool's decoded list |
| BootSearch.SearchAgrees | bootloader/loader.asm:138-184 | the boot search over raw records finds the slot the tool's lookup over decoded slots finds |
| BootSearch.FoundClusterAgrees | bootloader/loader.asm:201-208 | and it reads that slot's start cluster |
| BootSearch.CompareName | bootloader/loader.asm:161-172 | the comparison accepts exactly equal 11-byte names and stops within the entry |
| BootSearch.SearchSector | bootloader/boot.asm:81-106 | sixteen entries of a sector are searched in order, the first match wins |
| BootSearch.FindFile | bootloader/boot.asm:69-111 | fourteen sectors are searched; the result is the first match on disk, and only the buffer changes |
| BootLoad.DiskLayout | bootloader/fat12.inc:1-16 | one boot sector, two tables of nine, a directory of fourteen, data from sector 33 on, one sector a cluster |
| BootLoad.SectorOfCluster | bootloader/fat12.inc:1-4 | cluster + 14 + 17 is the sector at which the tool stores the cluster |
| BootLoad.ToolFileBootable | tools/fat12img.py:184-223 | a non-empty file of the tool below cluster 2849 is bootable along exactly its ceil(size/512) clusters |
| BootLoad.NextLink | bootloader/loader.asm:270-277 | the decoded link is the next cluster of the chain, and 0xFFF exactly at its end |
| BootLoad.CopySector | bootloader/loader.asm:239-254 | 512 bytes are copied to the kernel's place |
| BootLoad.LoadKernel | bootloader/loader.asm:201-277 | the walk stops after exactly as many sectors as the chain is long and leaves the clusters in order from 0x100000, and changes no other memory but its buffers from 0x7E00 to 0x8400 |
| BootLoad.PiecesArePrefix | bootloader/loader.asm:216-277 | the clusters in memory begin with the bytes the tool's read loop returns |
| BootLoad.LoadedIsFile | bootloader/loader.asm:201-277 | memory filled by the walk begins with the bytes that were saved |
| BootRuns.RunBootable | bootloader/loader.asm:201-277 | after every run of the tool a non-empty kernel or loader file below cluster 2849 is found, bootable along exactly ceil(size/512) clusters, and these begin with its bytes |
| BootRuns.BootFileNames | bootloader/loader.asm:881 | KERNEL.KAL and LOADER.KAL are saved under exactly the names the two stages look for |
| BootRuns.LoadSavedKernel | bootloader/loader.asm:201-277 | on the disk of any run of the tool, loading leaves memory from 0x100000 beginning with the bytes saved as the kernel |
| BootRuns.LoaderStart | bootloader/boot.asm:131-166 | where the loader starts in memory lie the saved bytes from its last multiple of 128 sectors on |
| BootRuns.LongLoaderExample | bootloader/boot.asm:143-164 | a loader of 129 sectors, saved on a fresh disk, that is bootable and does not start in memory as it was saved |
| BootLoad.LoadLoader | bootloader/boot.asm:131-166 | the walk stops at the end of the chain with its last 128 sectors each at its wrapped offset; no memory changes but that segment and the buffer from 0x7E00 to 0x8200 |
| BootLoad.SegmentInOrder | bootloader/boot.asm:143-164 | the first 128 sectors lie in order from 0x10000 if and only if every later sector that wrapped onto one has its bytes; a loader of at most 128 sectors lies there whole |
| BootLoad.SegmentSector | bootloader/boot.asm:143-164 | in the place of sector k lies the last sector with the same wrapped offset, its own if and only if at most 128 follow from it on |
| BootLoad.SegmentStart | bootloader/boot.asm:143-166 | the start is the loader's own first sector if and only if it has at most 128 sectors or the last one wrapped onto it has equal bytes |
| Words.MaskTest | kernel/memory.c:450-451 | a word masked with ((1 << n) - 1) << k is zero exactly when bits k to k + n - 1 are clear |
| Words.BitAfterSet | kernel/memory.c:495 | or-ing in 1 << k sets bit k and no other |
| Words.BitAfterClear | kernel/memory.c:571 | and-ing with the complement clears bit k and no other |
| FrameSearch.ProbeOneWord | kernel/memory.c:449-455 | the one-word test succeeds exactly on a clear block |
| FrameSearch.ProbeTwoWords | kernel/memory.c:458-468 | the two-mask test across a word boundary succeeds exactly on a clear block, up to the sizes whose shifts stay below 64 |
| FrameSearch.StrideBound | kernel/memory.c:443-468 | every step moves on by 1 to n frames and keeps the search in its cases |
| FrameSearch.SearchSound | kernel/memory.c:420-470 | a block found lies in the range, and its frames are clear as far as the word tests look |
| FrameSearch.SearchComplete | kernel/memory.c:420-470 | a run of 2n - 1 clear frames makes the search succeed (2w - 1 where w frames are looked at from a word boundary) |
| FrameSearch.BoundIsTight | kernel/memory.c:420-470 | for every size of at least 2 and every start, 2n - 2 clear frames (2w - 2) behind a place that is stepped on from by n (by w) are not enough |
| FrameSearch.TightPlace | kernel/memory.c:447-468 | every search has such a place, its start or the next word |
| FrameSearch.SingleFrame | kernel/memory.c:420-470 | for one frame the search fails exactly on a full range |
| FrameSearch.SearchExact | kernel/memory.c:420-470 | for every size and start the search succeeds if and only if one of its places is clear, and returns the first: every n frames from the start in its word, every n frames from the first of each later word, above 64 frames the start and every w frames from a word boundary |
| FrameSearch.CandidateStep | kernel/memory.c:443-468 | the stride leads to the next of these places and skips none |
| FrameState.PageInitFrame | kernel/memory.c:8-45 | the flags, count and place of every frame after page_init: a first use, a share by or for user space, or flags added |
| FrameState.ShareAgrees | kernel/memory.c:34-44 | sharing a used frame keeps bit, flag and count in agreement if and only if the count is below 0xFFFF |
| FrameState.PlacementSound | kernel/memory.c:393-475 | the block lies in a zone of the type asked for, and its frames were unmarked, unused and unreferenced |
| FrameState.PlacementComplete | kernel/memory.c:411-475 | a chosen zone with 2n - 1 clear frames in a row serves the request if and only if it does not start at frame 0 with a clear block |
| FrameState.SingleFailsWhenFull | kernel/memory.c:411-475 | for one frame it fails if and only if the chosen zone is full, or starts at frame 0 and that frame is clear |
| FrameState.FrameZeroNotFound | kernel/memory.c:411-475 | for every chosen zone the call succeeds if and only if some place of the search is clear and the zone does not start at frame 0 with a clear block |
| FrameState.TornPlacement | kernel/memory.c:430-468 | a request takes a zone's first block if the frames looked at are clear, whatever stands in those behind them |
| FrameState.AllocTakes | kernel/memory.c:480-510 | exactly the block is marked, used and counted once, and the zone's counter falls by 2n |
| FrameState.AllocFrames | kernel/memory.c:480-508 | frame by frame: the block has the flags asked for and PAGE_USED, one reference and its bits set, all else is as before |
| FrameState.TakenKeepsValid | kernel/memory.c:480-508 | taking a block keeps bit, flag and count equivalent on every zone frame |
| FrameState.FreeFramesEffect | kernel/memory.c:535-581 | freeing drops one reference of each used frame and frees exactly those that had one left, adding each to the counter |
| FrameState.FreedFrame | kernel/memory.c:535-581 | frame by frame: a used frame with two references or more keeps flags and bit and loses one, with the last it is cleared, all else is as before |
| FrameState.ReleasedKeepsValid | kernel/memory.c:535-581 | freeing keeps bit, flag and count equivalent on every zone frame |
| FrameRuns.MarkedIffHeld | kernel/memory.c:480-581 | a zone frame is marked, and used, exactly while someone holds it |
| FrameRuns.AllocDisjoint | kernel/memory.c:387-511 | a block of fully checked size handed out shares no frame with any block held |
| FrameRuns.TornAccount | kernel/memory.c:430-508 | for every size a call keeps counts equal to holders if and only if each frame it did not look at is unused or gains a reference below the limit |
| FrameExamples.TornExample | kernel/memory.c:387-587 | after boot with memory from 128 MB to 2 GB and three calls, a request for 65 frames is given a held frame, after which the counts are wrong |
| FrameExamples.TornCalls | kernel/memory.c:387-587 | the same calls on the arrays: frame 128 is granted twice |
| FrameExamples.FrameZeroExample | kernel/memory.c:411-475 | memory from 0 to 4 MB: the counter allows a frame and frame 0 is clear, but the request fails |
| FrameExamples.FrameZeroElsewhere | kernel/memory.c:288-293 | a map in which frame 0 lies in the second zone and is booked to the first |
| FrameExamples.MischargedExample | kernel/memory.c:362-369 | memory from 0 to 32 MB, metadata at frame 8: the zone below is charged, and both counters differ from the clear frames |
| FrameExamples.SelfTestExample | kernel/memory.c:329-343 | a map after which the bit of a reserved frame is clear |
| FrameRuns.StepAccounted | kernel/memory.c:480-581 | allocating, sharing and freeing keep every frame's count equal to its number of holders |
| FrameRuns.RunThenAllocDisjoint | kernel/memory.c:387-587 | after any run of calls the next block shares no frame with a live one |
| FrameRuns.FreeAtLastRelease | kernel/memory.c:535-581 | a frame with k holders becomes free exactly when the last of them releases it |
| FrameRuns.ReferenceCount | kernel/memory.c:480-581 | over any run a frame's count changes by grants and shares less releases and the frame is free exactly at zero: shared k times, at its release k + 1 |
| FrameRuns.StepBooked | kernel/memory.c:24-31 | one call keeps counter + frames taken - clear frames of every zone unchanged modulo 2^64 |
| FrameRuns.BookedMeans | kernel/memory.c:24-31 | the booking relation with 64-bit wrap-around is that congruence |
| FrameRuns.Ledger | kernel/memory.c:480-581 | over any run each zone keeps counter + frames ever taken - clear frames modulo 2^64 |
| MemoryMap.FieldsRead | kernel/memory.c:70-87 | base and length are the 64-bit numbers in the two halves of the record, usable exactly with type 1 |
| MemoryMap.CoversMeans | kernel/memory.c:180-191 | a frame is covered if and only if every address of its 2 MB lies in the entry |
| MemoryMap.MaxPfnReached | kernel/memory.c:76-80 | the highest frame is the end of some entry |
| MemoryMap.EntryZones | kernel/memory.c:180-262 | the zones of an entry are disjoint, non-empty, on one side of 16 MB and of that side's type, and count the entry's pages |
| MemoryMap.ZoneFrames | kernel/memory.c:172-286 | a frame is in a zone if and only if one usable entry covers its whole 2 MB |
| MemoryMap.ZonesSound | kernel/memory.c:172-286 | the zones of a map without overlaps are pairwise disjoint, well made and below the highest frame |
| MemoryMap.PagesAgree | kernel/memory.c:99-102 | the zones' page counts sum to the count of the first pass |
| MemoryMap.ZoneFrameNotReserved | kernel/memory.c:137-150 | no zone frame is marked by the reserved pass |
| BootMemory.MapCut | kernel/memory.c:54-58 | the map is cut behind its first 64 entries |
| BootMemory.BoundaryFrameMischarged | kernel/memory.c:362-369 | a zone frame is charged to its own zone if and only if no earlier zone of the list ends right before it |
| BootMemory.ReserveEffect | kernel/memory.c:354-370 | the metadata pass marks and counts exactly its frames, keeps the zones' ranges and lowers each counter by the frames charged to the zone, modulo 2^64 |
| BootMemory.ShapedIff | kernel/memory.c:288-293 | the frame records fit the zones if and only if no zone but the first of the list starts at frame 0 |
| BootMemory.SelfTestRestores | kernel/memory.c:329-343 | the self-test leaves every bit as it was if and only if the one it tries was clear |
| BootMemory.MetadataTaken | kernel/memory.c:288-370 | for every map initialisation leaves metadata frames with exactly the flags kernel, present, writable and used and the count one, other zone frames and frame 0 without flags and count, the rest reserved; bit, flag and count equivalent on every zone frame, elsewhere the bits of the reserved frames but frame 0 and the one tried; each counter the zone's pages less those charged; runs can begin if and only if only the first zone starts at frame 0 |
| BootMemory.MetadataShare | kernel/memory.c:34-44 | page_init without the user flag adds flags to a metadata frame and keeps its count one, with it the frame counts as shared |
| BootMemory.LedgerFromBoot | kernel/memory.c:354-581 | after any run from boot a zone's counter is its clear frames less those ever handed out plus its metadata frames less the frames charged to it, modulo 2^64 |
| FrameAllocator.MemoryManager.constructor | kernel/memory.c:47-370 | for every map without overlaps, cut at 64 entries, the passes end in that state, with the first pass's page count |
| FrameAllocator.MemoryManager.CountPass | kernel/memory.c:70-109 | the loop computes the usable pages and the highest frame number |
| FrameAllocator.MemoryManager.MarkReserved | kernel/memory.c:137-150 | the bits set are exactly the frames covered by non-usable entries |
| FrameAllocator.MemoryManager.ZonePass | kernel/memory.c:172-286 | the zones are built in order and every zone frame is free and knows its zone |
| FrameAllocator.MemoryManager.FrameZero | kernel/memory.c:288-298 | only frame 0 is handed to the first zone and unmarked |
| FrameAllocator.MemoryManager.SelfTest | kernel/memory.c:329-343 | the bitmap is the old one after setting and clearing the bit ten behind the first zone's start |
| FrameAllocator.MemoryManager.ReserveMetadata | kernel/memory.c:354-370 | the frames from start to end are taken out of use, each charged to the zone found |
| FrameAllocator.MemoryManager.PageInit | kernel/memory.c:8-45 | the three cases of a frame's initialisation |
| FrameAllocator.MemoryManager.Probe | kernel/memory.c:429-469 | in all three cases the word tests hold exactly on a clear block |
| FrameAllocator.MemoryManager.FindBlock | kernel/memory.c:420-470 | the loop over the word array is the search |
| FrameAllocator.MemoryManager.AllocPages | kernel/memory.c:387-511 | result and new state are those of the allocation step |
| FrameAllocator.MemoryManager.FreePages | kernel/memory.c:513-581 | the new state is that of the freeing step, refused calls included |
| Digits.ReadsBack | kernel/printk.c:99-108 | the digits of a value in any base from 2 to 36 and either case read back as the value |
| Digits.DigitCase | kernel/printk.c:64 | digits above nine are small letters or capitals exactly as asked for |
| Digits.NoLeadingZero | kernel/printk.c:99-108 | and do not start with a zero unless the value is zero |
| Digits.AtMost64 | kernel/printk.c:50-108 | a 64-bit value has at most 64 digits in every base |
| Digits.PrintDec | bootloader/loader.asm:835-858 | the printed text is the decimal digits and reads back as the value |
| Digits.PrintHex16 | bootloader/loader.asm:804-831 | the printed text is four digits, capitals above nine, that read back in base 16 as the value |
| NumberFormat.TextLength | kernel/printk.c:110-160 | without a prefix the length is the larger of the width and sign plus the larger of precision and digits |
| NumberFormat.BlockReadsBack | kernel/printk.c:132-149 | fill, precision zeros and digits together read back as the value and meet the precision |
| NumberFormat.TextReadsBack | kernel/printk.c:54-166 | every text, with prefix or without, read the way strtol reads, gives the value back, a minus sign exactly for negative signed values, and only blanks remain |
| NumberFormat.PrefixedLength | kernel/printk.c:90-117 | with the # flag the length is the larger of the width less the second charge (one in base 8, else two) and what sign, prefix and digits need, which is what the width asks for if and only if that need reaches the width |
| NumberFormat.SignCases | kernel/printk.c:79-88 | a minus sign exactly for negative signed values, else a plus sign exactly with that flag, else a blank exactly with that flag |
| NumberFormat.PrefixCases | kernel/printk.c:128-136 | no prefix without the # flag, else 0 in base 8, 0x or 0X in base 16, none in other bases |
| NumberFormat.SignShown | kernel/printk.c:119-136 | behind the padding stands the sign, or prefix and digits where none is printed |
| NumberFormat.TextEnds | kernel/printk.c:110-163 | the text ends in a digit unless left-justified, and its padding puts no blank in front if it is that or filled with zeros |
| NumberFormat.TextCase | kernel/printk.c:64-136 | no capital in the text with the flag for small letters, no small letter without, prefix included |
| NumberFormat.EmitIsPrefix | kernel/printk.c:119-163 | what is written in less room is the text cut off, when there is no prefix |
| NumberFormat.EmitWithPrefix | kernel/printk.c:128-136 | with the 0x prefix the same holds if and only if not exactly one character is left before a non-zero digit; with one left the prefix is skipped and the next character written |
| NumberWriter.Reversed | kernel/printk.c:99-108 | the scratch array holds the digits in reverse and is never filled |
| NumberWriter.Fill | kernel/printk.c:119-160 | the guarded loop writes exactly the characters that fit and nothing else |
| NumberWriter.Number | kernel/printk.c:54-163 | the buffer receives exactly the characters of the number that fit, from the position on, and the end position is returned |
| FormatScan.ShapeReadsBack | kernel/printk.c:193-267 | scanning a written directive gives back its flags, width, precision and qualifier, and stops at its conversion |
| FormatScan.Spelled | kernel/printk.c:193-267 | directives with each flag, with width, precision, asterisks and each qualifier as they are spelled |
| FormatScan.BarePoint | kernel/printk.c:238-255 | a point with no number behind it means precision zero |
| TextPieces.OutputIsPrefix | kernel/printk.c:186-405 | if small room only cuts each step off, it only cuts the whole text off |
| Formatter.PlainFormatCut | kernel/printk.c:177-412 | for formats without a 0x prefix the characters for k places are the first k of the whole text |
| Formatter.TerminatorOutside | kernel/printk.c:407-411 | the text fills the buffer, so that the terminator is outside, if and only if it is at least as long |
| Formatter.WrittenPiece | kernel/printk.c:269-404 | a directive written into a format is converted with exactly its field |
| Formatter.FieldMeans | kernel/printk.c:219-255 | width, precision and flags are as written or the 32-bit numbers of the next arguments, a negative width being its amount and the minus flag, a negative precision zero |
| Formatter.PlainCharacter | kernel/printk.c:186-191 | a character other than the percent sign prints itself |
| Formatter.OtherDirectives | kernel/printk.c:382-404 | %% prints a percent sign, %n nothing, an unknown conversion a percent sign before the text goes on right behind it |
| Formatter.CharDirective | kernel/printk.c:271-292 | %c prints the character with the low eight bits of its argument, among blanks up to the width |
| Formatter.StringDirective | kernel/printk.c:294-326 | %s prints the first characters of its string up to the precision, "(null)" for a null pointer, among blanks up to the width |
| Formatter.PointerDirective | kernel/printk.c:328-335 | %p prints 0x and small digits that read back as its argument, filled with zeros to 14 characters and to the precision |
| Formatter.SameDigitsIff | kernel/printk.c:353-366 | digits in two bases agree if and only if the value is below the smaller base |
| Formatter.SameTextIff | kernel/printk.c:353-366 | whatever the field, printing in base 16 gives the text of a smaller base if and only if the value is below that base and there is no # flag |
| Formatter.UnsignedIffSmall | kernel/printk.c:353-366 | with any flags, width and precision %u and %o print the decimal and the octal text of their argument if and only if it is below 10 and 8 and there is no # flag |
| Formatter.UnsignedReadsBack | kernel/printk.c:353-381 | every unsigned directive prints a text that reads back in base 16 as its argument: all 64 bits for l and ll, the low 16 for h, the low 32 otherwise |
| Formatter.UnsignedPlaced | kernel/printk.c:353-381 | length, prefix, justification and zero fill of every unsigned directive |
| Formatter.UnsignedCase | kernel/printk.c:353-381 | %x, %u and %o print no capital letter, %X no small one |
| Formatter.BareUnsigned | kernel/printk.c:353-366 | without a field %u and %o print exactly the decimal and octal digits if and only if the value is below 10 and 8 |
| Formatter.SignedDecimal | kernel/printk.c:337-352 | with any flags, width and precision %d prints a text that reads back in base 10 as the signed number in all 64 bits of its argument for l and ll, the low 16 for h, the low 32 otherwise; its sign is the one asked for, and it is as long as the width (less two with #) or as sign and digits need |
| Formatter.BareDecimal | kernel/printk.c:337-352 | without a field %d prints a minus sign exactly for negative values, then digits, which read back as that signed number |
| Formatter.SignedBits | kernel/printk.c:341-348 | the signed value is the one in the two's complement range that agrees with the argument's low bits |
| Formatter.StarWidth | kernel/printk.c:223-230 | an asterisk width means the same as its argument written out, a negative one as that width with the minus flag |
| Formatter.NegativePrecision | kernel/printk.c:244-255 | a negative precision argument prints what ISO C asks for if and only if the string is empty |
| Formatter.JustifiedText | kernel/printk.c:271-326 | text and blanks are as long as the wider of the two, the text whole on the side asked for |
| FormatWriter.ScanField | kernel/printk.c:193-267 | the parse loops give the directive's field, asterisks taken from the arguments, and never read behind the format's end |
| FormatWriter.PutConversion | kernel/printk.c:269-404 | every conversion writes what its piece allows, and says where to go on and which argument is next |
| FormatWriter.Vsnprintf | kernel/printk.c:177-412 | the buffer holds the text that fits and a terminator, nothing else changes, and the result is the smaller of its length and size - 1 |
| ConsolePixels.PixelUnique | kernel/printk.c:28-33 | two pixels of cells have the same address only if they are the same |
| ConsolePixels.PixelReached | kernel/printk.c:28-33 | every address of the frame buffer is a pixel of some cell |
| ConsolePixels.PaintedAt | kernel/printk.c:28-40 | painting changes exactly the 128 pixels of the cell, each to its shade |
| ConsolePixels.GlyphRow | kernel/printk.c:34-38 | the eight pixels of a row, read from left to right as binary digits with one for the foreground, are the glyph's row |
| ConsolePixels.PaintShows | kernel/printk.c:22-41 | painting a glyph is setting one cell of the screen |
| ConsoleScreen.PrintedCursor | kernel/printk.c:481-494 | n printable characters move the cursor n cells around the grid |
| ConsoleScreen.PrintedCells | kernel/printk.c:481-494 | character k stands k cells after the start, all other cells keep their contents |
| ConsoleScreen.BackspaceErases | kernel/printk.c:462-471 | backspace takes a printed character back: cursor as before, its cell blank |
| ConsoleScreen.NewlineCursor | kernel/printk.c:459-461 | newline goes to the start of the next row, from the last to the first |
| ConsoleScreen.TabColumn | kernel/printk.c:472-479 | a tab prints one to eight blanks, up to the next multiple of eight, taken modulo the columns |
| ConsoleScreen.TabCells | kernel/printk.c:472-479 | the cells up to that column are blanked, every other cell stays |
| ConsoleScreen.TabAligns | kernel/printk.c:472-494 | every tab ends in a column divisible by eight if and only if the column count is divisible by eight or divides it |
| ConsoleDriver.Console.constructor | kernel/vbe.c:7-15 | the console starts at the first cell with nothing painted |
| ConsoleDriver.Console.PutColorChar | kernel/printk.c:22-41 | the frame changes exactly by the cell's 128 pixels, all inside the buffer, and on two colours each of the sixteen rows reads as the glyph's |
| ConsoleDriver.Console.CheckBounds | kernel/printk.c:486-493 | wrapping at the right and lower border brings the cursor back on the grid |
| ConsoleDriver.Console.Turn | kernel/printk.c:454-494 | one pass of the loop, the jump back into a tab included, is one step on the screen |
| ConsoleDriver.Console.PrintBuffer | kernel/printk.c:454-494 | the loop ends, and the frame depicts the screen after the whole text |
| ConsoleDriver.Console.VcolorPrintk | kernel/printk.c:441-496 | formatting and printing together: the frame depicts what the text that fits 4096 characters makes of the screen |

## Left out

- BIOS services, drive retries, A20, video mode selection, mode switching, paging and TLB flushing: a disk read is indexing after the sector arithmetic.
- `kernel/trap.c`, `kernel/trap.h`, `kernel/trap_entry.S`, `kernel/cpu.h`, `kernel/font.h`, `kernel/gdt.c`, `kernel/idt.c`, `kernel/main.c`: tables, halting handlers, packed fields and demonstration code; glyphs are a parameter.
- Fat12Tool.Save: the modification time is a parameter, a missing host file is None, and host files are at most 4 GB.
- Fat12Tool.Load: the write of the host file is left out, and the entry is given where the code would fail on the index.
- Directory.UnpackPackSlot: names are ASCII of at most 11 bytes, as the packed record assumes; a name with other characters is not modelled.
- The split of a path into stem and extension, the `dir` command, the raw `write` command and the command line: host handling only.
- Volume.ValidChain: the image may grow past 2880 sectors as the tool lets it; the bound 2849 stands on the boot claims only.
- BootLoad.LoadKernel: memory is one flat array, so segment registers appear as base addresses.
- The copies of the table are written by the tool only; the second copy is never read, as in the source.
- FrameState.AllocTakes: the effect on counters is stated for requests of which every frame is looked at; TornAccount says when others keep the account.
- FrameAllocator.MemoryManager.AllocPages: requests of more than 127 - start % 64 frames, and more than 64, from a zone that is not word-aligned are outside, because a shift count at line 460 exceeds 63; so are sizes above the zone's end, where the loop bound wraps.
- `free_2m_pages`: it is never set to the page total, so no claim depends on it.
- FrameAllocator.MemoryManager.SelfTest: where the bitmap has no bit ten behind the first zone's start, the code sets and clears one behind the bitmap, which is not modelled; for a list without zones that start is taken as zero.
- BootMemory.MetadataTaken: which frames hold the metadata is a parameter.
- MemoryMap.ZonesSound: entries do not overlap and do not wrap around 64 bits.
- FrameAllocator.MemoryManager.FreePages: the block lies in the frame array, which the code leaves to its callers.
- FrameRuns.StepAccounted: calls are allocations, PAGE_USER sharing of used frames below the count limit, and frees of whole held blocks; the third case of page_init keeps count and bit and only adds flags.
- Formatter.PlainFormatCut: %p and # with a hexadecimal conversion are outside the claim, EmitWithPrefix gives their exact condition for one directive.
- `%n`: it consumes its argument and writes no text; its write to memory is not modelled.
- Field widths, precisions and screen sizes are unbounded integers, so overflow of `int32_t` is not modelled; the negation of the least 64-bit value gives its absolute value.
- The logging calls and the colour constants.
- Methods such as `PutPiece`, `PutNumber` or `TakeFrames` are stretches of one source function, set apart for their proofs.
