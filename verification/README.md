# MioOS: verified models of the kernel's stateful parts

MioOS is a 32-bit kernel. This project models its storage core, its scheduler, its three memory managers, its virtual
file system and its integer algorithms in Dafny 4.11, and proves what they keep, in every call and in every run. The
command `dafny verify dfyconfig.toml` checks all of it.

Each part is stated twice. What an operation does is a function on values or a predicate between two states, about which
the lemmas are proved; the operation itself is a method that changes fields, arrays and linked nodes as the kernel does,
proved against that specification.

- **Ext2 storage** (`BlockStore`, `BlockTree`, `FileWriteSpec`, `FileWrite`, `FileContent`, `FileRead`,
  `FileReadProofs`, `FileText`, `FileFree`, `FileProofs`, `FileRuns`, `FileFault`, `FilePlaces`, `InodeTable`,
  `DiskLayout`, `DirBlock`, `DirNames`). The device is a sequence of blocks, reached through one of the two disk
  drivers. A file is a forest of block trees below fifteen pointers; its logical bytes are those of its data blocks
  in order. Writing, reading and releasing are proved for all block sizes and all three levels of indirection.
  `FileRuns.SmallFileSystem` and `TwoSmallFiles` set up a file system and files that meet the preconditions.
- **Scheduler** (`SchedModel`, `SchedProofs`, `SchedEvents`, `SchedShares`, `LinkedQueue`, `Scheduler`). A step system
  whose events are timer ticks, yields, exits, creations, starts and the two actions of the zombie reaper. Each call
  of `schedule()` and `sched::init` is one atomic step: the interrupt path runs with interrupts off, voluntary calls
  do not, so atomicity is an assumption for them.
- **Frames** (`FrameModel`, `FrameProofs`, `FrameRuns`, `FrameFresh`, `FrameStale`, `FrameFault`, `FrameAllocator`).
  Metadata nodes in numbered slots, linked by slot numbers, as the kernel puts a split node into the slot behind.
- **Paging** (`PagingModel`, `PagingProofs`, `PagingRights`, `PagingTables`). Two levels of tables against a partial
  map from pages to frames, the walk of the processor (section 4.3 of the Intel SDM, Volume 3A), and a translation
  look-aside buffer that the processor fills and empties at will.
- **Heap** (`HeapModel`, `HeapProofs`, `HeapMerge`, `HeapReentry`, `HeapCells`, `HeapRefine`, `HeapFree`, `HeapQuiet`,
  `HeapKept`, `HeapRuns`, `HeapCoded`, `HeapBlocks`, `HeapFault`, `HeapAllocator`). The bytes of the arena, in which
  headers and payloads lie side by side. `HeapMerge` has `kfree` as it is meant to be, `HeapReentry` as it is, with
  the calls that it makes of itself, and `HeapCells` what these do to the headers, which `HeapRefine` proves.
- **Virtual file system** (`TreeModel`, `TreeProofs`, `Tree`, `Paths`, `VfsModel`, `Vfs`, `VfsFault`).
  First-child/next-sibling nodes, the paths that are built on them and the look-up that undoes them.
- **Arithmetic** (`Division`, `Numbers`, `Calendar`, `Raster`).

## Where the code departs from its intent

The models follow the code. In these places the code does less than it is for; the condition under which it does what it
is for is proved for all inputs.

- Block addresses: the product of block number and block size is taken in 32 bits (src/kernel/fs/ext/block.cpp:18), so that
  every block is at its own place exactly if the device is no larger than 4 GiB (`EveryBlockAtItsPlaceIff`). A formatted
  file system is one on such a device. A block number past the end may lead to a block as well (`Place`). If it leads past
  the end, the AHCI driver reports the error of a read; the ATA driver waits for data without looking at the error
  (src/kernel/drivers/ata.cpp:197), so that the read does not return (`Answer`).
- Reading a file: `read_indirect_block` reads data into the buffer that holds its pointers
  (src/kernel/fs/ext/ext2.cpp:992). Files of up to thirteen blocks are read back (`SmallFileReadsBack`). Text beyond that, no
  words of which lead to a block, is not read back: the AHCI driver cuts it short, and with the ATA driver reading never
  returns (`ReadsBackIff`, `LargeFileCutShort`, `LargeFileNeverReturned`). Where words may lead to blocks, `BelowSingleIff`
  is the exact condition for files that end below the single indirect pointer, and `BelowSingleReturnsIff` tells when
  reading returns. `FourteenBlocksLost` is a file that is lost. A reader with tables of its own reads everything back
  (`WriteThenReadWithOwnTables`).
- Reading also drops NUL bytes, because appending NUL to a string has no effect; the read-back statements say so.
- Releasing a file: `free_blocks` takes the superblock's logarithm of the block size for the block size
  (src/kernel/fs/ext/block.cpp:171) and so goes through no entry of any table up to block sizes of 8 KiB, and through few of
  larger ones; the exact condition is `CodeReleasesAllIff`, and `TableLeaks` is a file that leaks. `FreeAll` with all entries
  is the intended form, which `WriteThenFree` is about.
- Allocating and releasing blocks count from the field `blkgrp_superblk`, the number of the superblock's group, where the
  format counts from the first data block, which is block 1 on volumes of 1 KiB blocks. A free block is handed out exactly
  if the two are equal (`HandedOut`, `AllocBlock`); `HandsOutLiveBlock` is a volume on which a block of a file is handed out.
  The statements about whole files are for file systems on which they are equal (`OffsetsAgree`).
- Directory entries: a remainder of four bytes is too small for its own header (src/kernel/fs/ext/ext2.cpp:569); the exact
  condition is `InsertWellFormedIff`, and `FourLettersBreak` is a block that breaks. A directory that grows by a zeroed
  block gains no room (`ZeroedBlockHasNoRoom`).
- Starting a process does not look at its state; a second start puts it in two places (`StartKeepsInvIff`).
- Frames: splitting a block in the middle of the list leaves the next node's `prev` pointer behind
  (src/kernel/mm/pmm.cpp:219), and that pointer decides the address of a later allocation (line 228). `SameFrameTwice` is a
  run of single-frame calls in which one frame is handed out twice; `AllocKeepsIff` gives the exact condition for one call
  to keep the pointers, `RunKeeps` what runs under it keep. An allocation on a list with such pointers still hands out the
  block that it has found exactly if the node named by `prev` ends there (`HandedOutIff`); otherwise what it hands out is in
  use (`UntakenIff`), and runs in which all allocations meet this are safe (`TrustyRunKeeps`). The parameter `repair` of the
  model tells whether the pointer is put right; the code is the model without it, and `OneFrameRunKeeps` shows that with it
  single-frame runs need no condition. For requests of several frames the slot of the split node may be taken
  (`CollisionLoops`, `CollisionReachable`); with an unused slot instead, every run is safe (`FreshRunKeeps`).
- Heap: after each merge `kfree` calls itself with the header of the block behind, taken for a payload
  (src/kernel/mm/heap.cpp:103). That call looks at the byte eight before this header; if it is 0, it is set, the list is
  walked again, and the size in that header becomes 0. `QuietIff` and `KfreeIff` tell exactly when `kfree` does what it is
  meant to, `OtherBlock` what becomes of the other blocks in use, `KeptIff` exactly when they are kept, by a recursion over
  the headers and those bytes before the call, and `SparesIff` without recursion for lists without free neighbours.
  `ThirdBlockLosesItsSize` is a run of five calls in which a live block loses its size. Nested calls always return
  (`FreeReturns`), the list stays in order (`FreedInOrder`), and no byte of a block in use is lost in any run
  (`ByteSurvives`).
- Heap: `kfree` always clears the first word of the payload, which reaches into the next header if fewer than four bytes lie
  before it (`TinyBlockTakesASize`); the releases of the other statements are of blocks that have them (`Freeable`).
- Paging: a table takes the rights of the first page that needs it (`RightsAsAskedIff`); a first page without the present
  flag leaves a table that cannot be reached (`AllocPageWiredIff`); the identity-mapping loop may not end (`LoopEndsIff`)
  and may miss the last page (`RegionCoveredIff`).
- Paths: the sixteen tokens of a path limit the depth, duplicate names hide later siblings (`PathRoundTripIff`,
  `ShadowedSibling`), and a file without a file system becomes a directory whose path lacks its slash (`NewNodePathIff`).

## Model

| member | source | states |
|---|---|---|
| BlockStore.BlockAtInverse | src/kernel/fs/ext/block.cpp:131-133 | The group and offset that `free_block` computes are exactly those from which the block number was built, for every block of every group. |
| BlockStore.BlockAtOrder | src/kernel/fs/ext/block.cpp:86-114 | Going through groups and offsets in order meets the block numbers in ascending order, so the first clear bit is the lowest free block. |
| BlockStore.Ext2Fs.ReadBlock | src/kernel/fs/ext/block.cpp:16-29 | A read gives the bytes at the place that the 32-bit product of number and block size leads to; past the end of the device the AHCI driver reports the error and the ATA driver does not return, because it waits for data without looking at the error. Inside a device of at most 4 GiB it gives the block's bytes. |
| BlockStore.Ext2Fs.WriteBlock | src/kernel/fs/ext/block.cpp:31-42 | A write replaces the block at the place that the 32-bit product leads to and no other; past the end of the device it changes nothing, which only the AHCI driver reports. Writing a block that is no bitmap keeps the file system sound and the free blocks. |
| BlockStore.PlaceSame | src/kernel/fs/ext/block.cpp:18 | On a device of at most 4 GiB every block of it is read and written at its own place. |
| BlockStore.PlaceWraps | src/kernel/fs/ext/block.cpp:18 | Blocks that lie 4 GiB apart are read and written at the same place, for block sizes that divide 4 GiB. |
| BlockStore.PastTheEnd | src/kernel/fs/ext/block.cpp:16-42 | Past the end of the device the AHCI driver refuses reads and writes; the ATA driver gets stuck on a read and reports a write as done. |
| BlockStore.EveryBlockAtItsPlaceIff | src/kernel/fs/ext/block.cpp:18 | Every block of a device is at its own place exactly if the device is no larger than 4 GiB, because the product of number and block size wraps around in 32 bits. |
| BlockStore.Ext2Fs.GetBlockBitmap | src/kernel/fs/ext/block.cpp:48-59 | The bitmap of an existing group is what its bitmap block holds; there is none for a group past the last. |
| BlockStore.Ext2Fs.WriteBlockBitmap | src/kernel/fs/ext/block.cpp:65-74 | Only the bitmap block of an existing group is rewritten. |
| BlockStore.Ext2Fs.ScanBitmap | src/kernel/fs/ext/block.cpp:95-100 | The loop over a bitmap stops at its first clear bit, and runs through exactly when all bits are set. |
| BlockStore.Ext2Fs.TakeBlock | src/kernel/fs/ext/block.cpp:102-114 | Marking the bit, writing the bitmap and lowering both counters takes exactly the lowest free block, by the format's numbering, out of the free ones and keeps bitmaps and counters in agreement; the number handed out is that block's if the offsets agree, and otherwise, with a smaller group number, names no free block. |
| BlockStore.Ext2Fs.AllocBlock | src/kernel/fs/ext/block.cpp:80-121 | Marks exactly the globally lowest free block as used; that block is handed out exactly if the superblock's group number equals the first data block, and otherwise, with a smaller group number, one that is not free; fails (a kernel panic) exactly when the counter is 0, which is exactly when no block is free; bitmaps and counters stay in agreement and all blocks but bitmaps keep their bytes. |
| BlockStore.HandedOut | src/kernel/fs/ext/block.cpp:114 | The number that line 114 computes for the lowest free block is that block's, and names a free block at all, exactly if `blkgrp_superblk` equals the first data block. |
| BlockStore.MarkedSame | src/kernel/fs/ext/block.cpp:131-133 | Where `blkgrp_superblk` equals the first data block, the releaser takes the bit of a block of the groups for what it is. |
| BlockStore.Ext2Fs.FreeBlock | src/kernel/fs/ext/block.cpp:127-151 | Bitmaps and counters stay in agreement exactly if the block is ignored or the block whose bit the code takes for its own was in use and is no bitmap; then exactly that one becomes free. Block 0 and blocks outside all groups change nothing. |
| BlockStore.ReleaseSound | src/kernel/fs/ext/block.cpp:139-147 | Clearing a bit keeps the whole file system sound exactly when the block was in use and may be handed out again. |
| BlockStore.ReleaseFreeUnsound | src/kernel/fs/ext/block.cpp:143-144 | Releasing a block that is already free makes the group counter wrong. |
| BlockStore.TakeSound | src/kernel/fs/ext/block.cpp:102-108 | Taking any free block keeps every group counter equal to its clear bits and the superblock counter equal to their sum. |
| BlockStore.LowestFree | src/kernel/fs/ext/block.cpp:86-114 | With every earlier bit set, the block of the first clear bit is no larger than any free block. |
| BlockStore.NothingFree | src/kernel/fs/ext/block.cpp:118-119 | When all groups have been skipped or scanned in vain, no block is free. |
| BlockStore.WrapsPastLastGroup | src/kernel/fs/ext/block.cpp:132-137 | A block number below the one from which the code counts wraps around in 32 bits to a group past the last one, which `get_block_bitmap` refuses. |
| BlockStore.DataBlockStored | src/kernel/fs/ext/block.cpp:31-42 | Writing a block that is no bitmap changes neither the free blocks nor the agreement of bitmaps and counters. |
| Bitmap.ClearBitsPut | src/kernel/fs/ext/ext2.cpp:384-389 | Setting or clearing one bit changes the number of clear bits by exactly one if the bit changes, and not at all otherwise. |
| FileProofs.FreeCount | src/kernel/fs/ext/block.cpp:107-108 | In a sound file system the superblock's counter is the number of blocks that the bitmaps mark as free. |
| FileFault.HandsOutLiveBlock | src/kernel/fs/ext/block.cpp:114 | On a concrete volume of 1 KiB blocks, laid out as the format has it, the allocator hands out the only block of a file. |
| DiskLayout.BlockSizes | src/kernel/fs/ext/ext2.cpp:243 | Block sizes double with the superblock's logarithm, from 1 KiB on. |
| DiskLayout.GroupsCover | src/kernel/fs/ext/ext2.cpp:247-249 | The groups are as few as hold all blocks of the volume. |
| DiskLayout.FreeBit | src/kernel/fs/ext/block.cpp:95-102 | Block `first + g * perGroup + 8 i + k` is free exactly if the bit of weight 2^k in byte i of the bitmap of group g is 0. |
| InodeTable.LoadInode | src/kernel/fs/ext/inode.cpp:49-71 | Reads the inode that the group and index arithmetic places in the inode table. |
| InodeTable.WriteInode | src/kernel/fs/ext/inode.cpp:160-199 | Replaces the inode's bytes in its table block and nothing else on the device. |
| InodeTable.ToWordsInjective | src/kernel/include/fs/ext/inode.hpp:52-74 | No two inodes have the same 128 bytes, so loading loses nothing. |
| InodeTable.SlotFits | src/kernel/fs/ext/inode.cpp:59-68 | An inode never straddles two blocks, for every inode size that divides the block size. |
| InodeTable.InodeStored | src/kernel/fs/ext/inode.cpp:160-199 | Loading an inode that was just stored gives it back. |
| InodeTable.SlotsApart | src/kernel/fs/ext/inode.cpp:50-62 | The places of two different inodes do not overlap, in the same or in different groups. |
| InodeTable.OtherInodesKept | src/kernel/fs/ext/inode.cpp:160-199 | Storing one inode leaves every other inode as it was. |
| InodeTable.InodeKept | src/kernel/fs/ext/inode.cpp:49-71 | An inode on the device depends on its table block and the layout only. |
| DiskLayout.SlotAt | src/kernel/fs/ext/inode.cpp:50-62 | Inode `g * inodesPerGroup + k + 1` lies k times the inode size behind the start of the table of group g, for every group g and every k below the inodes per group. |
| DiskLayout.InodeFields | src/kernel/include/fs/ext/inode.hpp:52-74 | The byte of the record at which each field of an inode lies: the low size at 4, the times at 8 to 20, the twelve direct pointers from 40 on, the three indirect ones at 88, 92 and 96, the high size at 108, all little-endian. |
| DiskLayout.StoredBytes | src/kernel/fs/ext/inode.cpp:160-199 | Storing an inode changes no byte of the device but the first 128 of its record. |
| FilePlaces.FileBlock | src/kernel/fs/ext/ext2.cpp:1025-1053 | The k-th block of bytes of a file is the block that the k-th pointer leads to: first twelve direct pointers, then those of one table, of a table of tables, and of three levels of tables; together they hold 12 + n + n^2 + n^3 blocks. |
| FilePlaces.PointerBytes | src/kernel/fs/ext/ext2.cpp:978-998 | Entry i of a block of pointers is the little-endian number in its bytes 4 i to 4 i + 3. |
| FileWrite.CopyInto | src/kernel/fs/ext/ext2.cpp:1090-1093 | The copy loop replaces exactly the written stretch of the buffer. |
| FileWrite.WriteFileBlock | src/kernel/fs/ext/ext2.cpp:1066-1102 | Writes the next bytes of the input into one data block, allocating it exactly if it is missing; panics exactly if it is missing and no block is free; bytes behind the written ones stay. |
| FileWrite.WriteEntries | src/kernel/fs/ext/ext2.cpp:1128-1136 | The loop over the entries of a pointer block writes the next bytes below them, in order, at any level, and allocates exactly what is missing. |
| FileWrite.WriteIndirectBlock | src/kernel/fs/ext/ext2.cpp:1105-1141 | Writes the next bytes of the input below a single, double or triple indirect pointer: the logical bytes below it become the input, no block is shared, exactly the missing blocks are taken from the free ones, and nothing else in use changes; panics exactly if too few are free. |
| FileWriteSpec.Compose | src/kernel/fs/ext/ext2.cpp:1192-1217 | Two writes of neighbouring parts of the pointer tree are one write of both, with their costs added and no block shared between them. |
| FileWriteSpec.WrittenLeaf | src/kernel/fs/ext/ext2.cpp:1071-1099 | Overwriting a data block, fresh or loaded, is a write of the logical bytes below its pointer. |
| FileWriteSpec.WrittenUp | src/kernel/fs/ext/ext2.cpp:1121-1139 | Writing the tree below the entries in memory and then storing the table writes the tree of the pointer block. |
| FileWriteSpec.NeighbourKept | src/kernel/fs/ext/ext2.cpp:1105-1141 | A pointer tree beside the written one keeps its blocks and its bytes. |
| FileContent.WriteThroughPointers | src/kernel/fs/ext/ext2.cpp:1192-1217 | The four stages of the overwrite go through the fifteen pointers in order and together write the whole input, as far as fifteen pointers reach. |
| FileContent.WriteFileContent | src/kernel/fs/ext/ext2.cpp:1143-1229 | Overwriting succeeds exactly if the blocks that the input misses are free; then the file's logical bytes begin with the input, all reachable blocks are distinct and marked used, exactly the missing blocks were taken, other blocks in use keep their bytes, the inode on disk is the new one with the new size, access and modification time and otherwise as before, and every other inode on disk is as it was, also in the same table block. |
| FileContent.OtherFileKept | src/kernel/fs/ext/ext2.cpp:1143-1229 | The forest of any other file keeps its bytes, its separation and its backing blocks. |
| FileContent.OtherInodesStay | src/kernel/fs/ext/ext2.cpp:1192-1225 | Writing the blocks of a file and storing its inode leaves every other inode on the device as it was, if its table block is neither free nor part of the file. |
| FileRuns.TwoFilesStay | src/kernel/fs/ext/ext2.cpp:1143-1229 | After one of two files on the device is overwritten, the other one's inode as loaded from the device and the bytes below it are the same, and the two files are still apart. |
| FileRuns.OverwriteBeside | src/kernel/fs/ext/ext2.cpp:1000-1229 | In one go: a file is read by the kernel, another one is overwritten, and the first one is read again; a file of at most thirteen blocks reads the same, and its inode and bytes on the device are the same. |
| FileContent.InodeStoreHarmless | src/kernel/fs/ext/ext2.cpp:1225 | Storing the inode after its pointers were written touches no block of the file. |
| FileRead.ReadFileBlock | src/kernel/fs/ext/ext2.cpp:959-975 | Appends the block's bytes up to the end of the file, dropping NUL characters, and counts all of them as read; a null pointer, a finished file or a refused read change nothing; a read on which the driver gets stuck does not return. |
| FileRead.ReadIndirectBlock | src/kernel/fs/ext/ext2.cpp:978-998 | Reads below an indirect pointer through the one buffer that holds both pointers and data, exactly as the code does, and tells whether it returns. |
| FileRead.GetFileContents | src/kernel/fs/ext/ext2.cpp:1025-1059 | Returns what the as-coded reader appends through the twelve direct and three indirect pointers, if it returns. |
| FileRead.DropNulKeeps | src/kernel/fs/ext/ext2.cpp:968-970 | Exactly the NUL characters of what is appended are dropped. |
| FileReadProofs.OwnTablesReadBack | src/kernel/fs/ext/ext2.cpp:978-998 | A reader with pointer tables of its own returns the bytes of every backed file at every level, but for NUL bytes. |
| FileReadProofs.SmallFileReadsBack | src/kernel/fs/ext/ext2.cpp:1035-1044 | The code returns the bytes of every file of at most thirteen blocks, but for NUL bytes. |
| FileText.LargeFileCutShort | src/kernel/fs/ext/ext2.cpp:990-997 | Of a text file of more than thirteen blocks the code returns, with the AHCI driver, at most fifteen blocks and not the whole file. |
| FileText.LargeFileNeverReturned | src/kernel/fs/ext/ext2.cpp:990-997 | With the ATA driver reading such a file never returns. |
| FileText.LostInText | src/kernel/fs/ext/ext2.cpp:990-997 | Once text that leads nowhere lies in the buffer in place of pointers, the rest of the table yields nothing with the AHCI driver, and with the ATA driver the walk over it does not return. |
| FileText.TextBelow | src/kernel/fs/ext/ext2.cpp:978-998 | Below an indirect pointer whose first block is such text, at any level, the reader gets that block, and if bytes are left behind it the ATA driver does not return. |
| FileText.ReadsBackIff | src/kernel/fs/ext/ext2.cpp:978-998 | With either driver, NUL-free text whose words in the first block below each indirect pointer lead to no block is read back exactly if it has at most thirteen blocks. |
| FileText.AhciReturns | src/kernel/fs/ext/ext2.cpp:978-998 | With the AHCI driver reading a file returns, whatever the pointers and blocks hold. |
| FileText.BelowSingleIff | src/kernel/fs/ext/ext2.cpp:978-998 | Any NUL-free file that ends below the single indirect pointer is read back exactly if, from the second entry of the thirteenth block on, its words lead from block to block: the next one that is not passed over leads to a block with the bytes that come next in the file. |
| FileText.BelowSingleReturnsIff | src/kernel/fs/ext/ext2.cpp:978-998 | Reading a file that ends there, whatever it holds, returns exactly if no word that is followed before all bytes are read leads past the end of an ATA disk. |
| FileFault.FourteenBlocksLost | src/kernel/fs/ext/ext2.cpp:978-998 | On a concrete device of 1 KiB blocks a file of fourteen blocks is not read back, and with the ATA driver reading it never returns. |
| FileProofs.WriteThenRead | src/kernel/fs/ext/ext2.cpp:1000-1229 | What was written to a file of at most thirteen blocks is read back by the code, but for NUL bytes. |
| FileProofs.WriteThenReadWithOwnTables | src/kernel/fs/ext/ext2.cpp:1000-1229 | With tables of its own the reader gives back every file that was written, through all three levels of indirection. |
| FileFree.FreeEntries | src/kernel/fs/ext/block.cpp:183-193 | Releases exactly the blocks that the considered entries of a table lead to, each once. |
| FileFree.FreeTree | src/kernel/fs/ext/block.cpp:199-225 | Releases exactly the tree below a non-null pointer, through all levels, and raises both counters by as many blocks. |
| FileFree.FreeAll | src/kernel/fs/ext/block.cpp:156-226 | With a given number of entries per table, exactly the blocks reachable through them become free, each once, both counters rise by that number, only bitmaps are rewritten, and all pointers are cleared. |
| FileFree.FreeBlocks | src/kernel/fs/ext/block.cpp:156-226 | As coded, with the superblock's logarithm of the block size divided by 4 as the number of entries, exactly the blocks reachable through that many entries become free. |
| FileFree.FewerEntries | src/kernel/fs/ext/block.cpp:171 | Going through fewer entries of each table reaches a subset of the blocks. |
| FileProofs.AllReachedIff | src/kernel/fs/ext/block.cpp:167-225 | Going through the first e entries of each table reaches every block of a file exactly if, in every table reached, the entries from e on are null, for every e. |
| FileProofs.CodeReleasesAllIff | src/kernel/fs/ext/block.cpp:167-225 | The code, which goes through a quarter of the logarithm of the block size, releases every block of the file exactly if all entries from that one on are null in the tables it reaches; up to 8 KiB these are all entries. |
| FileFault.TableLeaks | src/kernel/fs/ext/block.cpp:167-225 | Of a concrete file with a table of one entry the code releases the table and leaks the block. |
| FileProofs.WriteThenFree | src/kernel/fs/ext/block.cpp:156-226 | A file written from nothing and released through all entries of its tables gives back every block: bitmap and counters are as before. |
| FileRuns.OverwriteAndRead | src/kernel/fs/ext/ext2.cpp:1000-1229 | In one go: a file of at most thirteen blocks is overwritten and read back as it was given, but for NUL bytes, unless fewer blocks are free than the input misses, which is exactly when it fails. |
| FileRuns.WriteAndRelease | src/kernel/fs/ext/ext2.cpp:1143-1229 | In one go: a file written into an inode without blocks and released through whole tables leaves the same free blocks and the same counter. |
| DirBlock.InsertIntoBlock | src/kernel/fs/ext/ext2.cpp:541-627 | Succeeds exactly if some entry of the chain, up to the end of the block or an entry of size 0, has room for the new one, uses the first such entry, and stores exactly the bytes of the split; otherwise the device is unchanged. |
| DirBlock.InsertKeepsChain | src/kernel/fs/ext/ext2.cpp:553-620 | Unless four bytes are left over, the entries still tile the block: the old ones with the new one in its place. |
| DirBlock.InsertLive | src/kernel/fs/ext/ext2.cpp:553-620 | The live entries afterwards are the old ones in order and the new one, once. |
| DirBlock.FourBytesBreakChain | src/kernel/fs/ext/ext2.cpp:566-573 | With four bytes left over no chain of entries tiles the block any more, because the eight-byte header of the remainder runs into what follows. |
| DirBlock.InsertWellFormedIff | src/kernel/fs/ext/ext2.cpp:541-627 | Inserting into a well-formed block gives a well-formed block exactly if not four bytes are left over in the chosen entry. |
| DirBlock.FourLettersBreak | src/kernel/fs/ext/ext2.cpp:541-627 | A concrete well-formed block with an unused entry of sixteen bytes stops being well formed when a name of four letters is inserted. |
| DirBlock.ZeroedBlockHasNoRoom | src/kernel/fs/ext/ext2.cpp:541-627 | In a block of zeroes, as a directory gets it when it grows, the search for room stops at once. |
| DirBlock.RemoveFromBlock | src/kernel/fs/ext/ext2.cpp:804-833 | Finds the first live entry of that name and kind, if there is one, and stores exactly the bytes of its removal; it always ends on a block that its entries tile, and on others if the entry is there. |
| DirBlock.RemoveKeepsChain | src/kernel/fs/ext/ext2.cpp:817-825 | After the removal the entries still tile the block. |
| DirBlock.RemoveLive | src/kernel/fs/ext/ext2.cpp:817-825 | Exactly the removed entry is gone from the live ones. |
| DirBlock.InsertThenRemove | src/kernel/fs/ext/ext2.cpp:541-833 | Removing a name that was just inserted brings the old live entries back. |
| DirNames.RemovesByName | src/kernel/fs/ext/ext2.cpp:811-833 | For names without NUL an entry is found exactly if some live entry has this very name and kind; the live list then loses exactly the first such entry, and every entry of another name or kind stays. |
| DirNames.RemovedSizes | src/kernel/fs/ext/ext2.cpp:818-822 | The bytes of a removed entry go to the one before it; the first entry of a block stays behind as an unused one of its size. |
| DirNames.MatchesIff | src/kernel/fs/ext/ext2.cpp:814-817 | Names without NUL match exactly if they are the same, the kind is the same and the entry is in use. |
| DirNames.InsertsIff | src/kernel/fs/ext/ext2.cpp:541-600 | There is room exactly if some entry is larger than what it needs itself by what the new name needs, and the first such entry is chosen. |
| DirNames.InsertedSizes | src/kernel/fs/ext/ext2.cpp:556-620 | A used entry keeps what its own name needs, the new entry gets what its name needs, and what is left over becomes an unused entry. |
| DirNames.RecLenLeast | src/kernel/fs/ext/ext2.cpp:392 | The least record length of a name is the next multiple of four behind its eight-byte header and the name. |
| DirNames.EntryBytes | src/kernel/include/fs/ext/ext2.hpp:94-100 | The bytes at which the inode number, the record length, the length of the name, the kind and the name of an entry lie. |
| SchedModel.StoredPriority | src/kernel/sched/process.cpp:51-52 | Every stored priority lies between 1 and 10, although the unsigned argument is compared as a signed number. |
| SchedEvents.PriorityStored | src/kernel/sched/process.cpp:49-53 | Priorities from 1 to 10 are stored as they are, larger ones as 10, and 0 and what is negative as a signed number as 1. |
| SchedProofs.InitInv | src/kernel/sched/scheduler.cpp:33-48 | After `init` idle runs, the reaper is queued, and every process is where it belongs. |
| SchedProofs.ScheduleInv | src/kernel/sched/scheduler.cpp:83-129 | A switch from any consistent state puts the old process where it belongs and gives the next one a full slice. |
| SchedProofs.StepInv | src/kernel/sched/scheduler.cpp:51-129 | Every tick, yield, exit, creation, start and reaper action keeps each process in exactly one of current, run queue, zombie queue, reaper's hand or freed, idle unqueued, and the terminated ones exactly in the last three. |
| SchedEvents.ExitEnds | src/kernel/sched/process.cpp:109-119 | A process that ends is terminated, the last zombie, and neither current nor queued; the oldest queued process, or idle, runs in its place with a full slice, and all others are as they were. |
| SchedEvents.TerminatedIff | src/kernel/sched/process.cpp:109-119 | An event makes a process terminated exactly if it is the end of that process, and nothing revives one. |
| SchedEvents.EndedForever | src/kernel/sched/scheduler.cpp:51-129 | Once terminated, a process never runs and is never queued again in any run; it stays a zombie, in the reaper's hand, or freed. |
| SchedEvents.IdleStays | src/kernel/sched/scheduler.cpp:74-78 | The idle process cannot end. |
| SchedEvents.YieldSwitches | src/kernel/sched/scheduler.cpp:83-129 | Giving up the processor dispatches the oldest queued process with a slice of five ticks per unit of its priority and puts the old one at the end of the queue; all others are as they were. |
| SchedEvents.TickUsesSlice | src/kernel/drivers/pit.cpp:30-38 | A tick uses up one unit of the slice, and the last one switches. |
| SchedEvents.CreateAdds | src/kernel/sched/process.cpp:42-97 | A new process is ready, in no queue, with a slice of five ticks per unit of the stored priority. |
| SchedEvents.StartQueues | src/kernel/sched/process.cpp:100-107 | A started process is running and the last of the queue. |
| SchedEvents.ReaperTakesOldest | src/kernel/sched/scheduler.cpp:53-71 | The reaper takes the zombies one at a time, in the order in which they ended; without one it yields. |
| SchedEvents.ReaperFreesHand | src/kernel/sched/scheduler.cpp:60-66 | The reaper frees exactly what it has taken. |
| SchedEvents.InitialProcesses | src/kernel/sched/scheduler.cpp:33-48 | `init` leaves idle running with a full slice and the reaper queued, both of priority 1. |
| SchedProofs.RunInv | src/kernel/sched/scheduler.cpp:51-129 | In every state of every run no process is lost or duplicated, and the current one runs with a slice between 1 and 5 times its priority. |
| SchedProofs.ReaperFreeInv | src/kernel/sched/scheduler.cpp:60-66 | The zombie that the reaper frees is terminated, not the current process, not queued, and was never freed before. |
| SchedProofs.FreedForever | src/kernel/sched/scheduler.cpp:51-129 | A freed process is never current, queued, a zombie or in the reaper's hand again. |
| SchedProofs.StartKeepsInvIff | src/kernel/sched/process.cpp:100-107 | Starting a process keeps all this exactly if it is ready: nothing stops a second start, which puts it in two places. |
| SchedProofs.BoundedWait | src/kernel/sched/scheduler.cpp:83-129 | Whatever the run does, a process in the queue runs before the remaining slice plus five ticks per unit of priority ahead of it have passed. |
| SchedProofs.WaitBound | src/kernel/sched/scheduler.cpp:83-129 | At queue position k that is at most 50 (k + 1) ticks. |
| SchedProofs.StepWait | src/kernel/sched/scheduler.cpp:83-129 | Each event either dispatches the waiting process or leaves it waiting, for at least one tick less after each tick. |
| SchedShares.WeightedShare | src/kernel/drivers/pit.cpp:22-39 | After five ticks per unit of priority in the cycle, from any slice, the running process, the queue and the slice are as before and each process has had exactly 5 times its priority. |
| SchedShares.WeightedShares | src/kernel/drivers/pit.cpp:22-39 | Over any number of such rounds the shares are exact as well. |
| SchedShares.AfterTurns | src/kernel/sched/scheduler.cpp:91-124 | After k turns the cycle has moved on by k places and each of the first k processes has had its slice once. |
| SchedShares.TicksAreARun | src/kernel/drivers/pit.cpp:22-39 | A stretch of timer interrupts is one of the runs of the step system. |
| LinkedQueue.Queue.Push | src/kernel/include/lib/data/queue.hpp:62-74 | The linked queue gets the value behind all others. |
| LinkedQueue.Queue.Pop | src/kernel/include/lib/data/queue.hpp:77-90 | The oldest value leaves the linked queue; an empty queue gives nothing. |
| LinkedQueue.Queue.Empty | src/kernel/include/lib/data/queue.hpp:52-54 | Tells whether the queue holds nothing. |
| Scheduler.Kernel.Schedule | src/kernel/sched/scheduler.cpp:83-129 | The in-place switch does to processes and queues exactly what the step system says. |
| Scheduler.Kernel.OnIrq0 | src/kernel/drivers/pit.cpp:22-39 | The timer interrupt is exactly the tick of the step system. |
| Scheduler.Kernel.ExitCurrentProcess | src/kernel/sched/scheduler.cpp:74-81 | The exit of the current process is exactly that of the step system; idle cannot end. |
| Scheduler.Kernel.Create | src/kernel/sched/process.cpp:42-97 | A new process is ready, with the stored priority and a full slice. |
| Scheduler.Kernel.Start | src/kernel/sched/process.cpp:100-107 | The process is marked running and put behind the run queue. |
| Scheduler.Kernel.Init | src/kernel/sched/scheduler.cpp:33-48 | Initialisation reaches exactly the initial state of the step system. |
| Scheduler.Kernel.TakeZombie | src/kernel/sched/scheduler.cpp:53-71 | The reaper pops the oldest zombie or yields. |
| Scheduler.Kernel.FreeZombie | src/kernel/sched/scheduler.cpp:60-66 | The reaper gives back the zombie that it has popped. |
| FrameProofs.AllocKeepsIff | src/kernel/mm/pmm.cpp:206-247 | As coded, an allocation keeps the list well formed exactly if it does not divide a block that has a successor; with the successor's `prev` pointer put right, exactly if the new node does not fall into the successor's slot. |
| FrameProofs.AllocKeeps | src/kernel/mm/pmm.cpp:206-247 | In those cases tiling, pointers, accounting and the absence of free neighbours are kept. |
| FrameProofs.CollisionLoops | src/kernel/mm/pmm.cpp:212-222 | If the new node falls into the successor's slot, that node points to itself and the successor's record is gone. |
| FrameRuns.AllocResult | src/kernel/mm/pmm.cpp:206-247 | An allocation that keeps the list well formed hands out an aligned block of managed memory that overlaps no live one; exactly that block becomes live and the used memory grows by its size. |
| FrameRuns.AllocFrames | src/kernel/mm/pmm.cpp:196-247 | An allocation of n frames takes 4096 n bytes, aligned to 4 KiB and fresh, out of the first free block that has them; if there is none, nothing changes. |
| FrameRuns.AlignUpLeast | src/kernel/mm/pmm.cpp:247 | The address handed out is the next multiple of 4 KiB. |
| FrameRuns.HandedOutFresh | src/kernel/mm/pmm.cpp:206-247 | On a well-formed list every allocation as coded, also one that leaves the list broken, hands out an aligned block of managed memory that overlaps no live one. |
| FrameRuns.FreeKeeps | src/kernel/mm/pmm.cpp:258-308 | Freeing takes exactly the given block out of the live ones and its size out of the used memory, and leaves no two free neighbours. |
| FrameRuns.MergeAllKeeps | src/kernel/mm/pmm.cpp:278-308 | The `goto loop` merge ends, leaves no two free neighbours, and touches no live block. |
| FrameRuns.LiveDisjoint | src/kernel/mm/pmm.cpp:206-308 | In a well-formed list no two live blocks overlap. |
| FrameRuns.OwnedIndex | src/kernel/mm/pmm.cpp:262-274 | The walk to the freed address finds the live block there exactly if there is one. |
| FrameRuns.RunKeeps | src/kernel/mm/pmm.cpp:188-308 | As coded, a run in which no call divides a block that has a successor keeps the tiling, the pointers, `total_used_ram` equal to the sum of the non-free sizes, and free blocks apart. |
| FrameStale.HandedOutIff | src/kernel/mm/pmm.cpp:226-229 | On any list, an allocation hands out the address of the block that it has found exactly if the node that its `prev` pointer names is another one and ends there. |
| FrameStale.AllocRepairableIff | src/kernel/mm/pmm.cpp:206-247 | On a list that is well formed but for `prev` pointers left behind, an allocation leaves such a list exactly if it hands out the block that it has found and the new node gets a free slot. |
| FrameStale.UntakenIff | src/kernel/mm/pmm.cpp:188-247 | On such a list, what first fit hands out, unless that lies behind the block found, overlaps no live block exactly if the node that the `prev` pointer names ends where the block begins. |
| FrameStale.TrustyRunKeeps | src/kernel/mm/pmm.cpp:188-308 | As long as every allocation of a run as coded meets that condition, no two live blocks overlap, also when blocks are divided in the middle of the list. |
| FrameFresh.FreshStepKeeps | src/kernel/mm/pmm.cpp:188-308 | With an unused slot for the rest and the `prev` pointer put right, a request for any number of frames hands out memory apart from all live blocks, or nothing exactly if no free block is large enough; a return takes exactly its block out of use. |
| FrameFresh.FreshRunKeeps | src/kernel/mm/pmm.cpp:188-308 | In that form every run of requests for any number of frames and returns of owned blocks keeps the list well formed, and no two live blocks ever overlap. |
| FrameRuns.NoCollision | src/kernel/mm/pmm.cpp:212 | With slot distance equal to frame distance, a single frame's rest never falls into a taken slot. |
| FrameRuns.OneFrameRunKeeps | src/kernel/mm/pmm.cpp:188-308 | With the `prev` pointer put right, every run of single-frame requests and releases of owned frames is safe and keeps everything. |
| FrameRuns.InitialGood | src/kernel/mm/pmm.cpp:130-177 | The list that `init` sets up is well formed and has no live block. |
| FrameFault.SameFrameTwice | src/kernel/mm/pmm.cpp:219-228 | A run of single-frame calls on owned addresses after which the code has handed out one frame twice: the stale `prev` pointer decides the address. |
| FrameFault.CollisionReachable | src/kernel/mm/pmm.cpp:212 | After allocating two frames and one, and freeing the two, the next single-frame request collides. |
| FrameAllocator.Allocator.AllocFrame | src/kernel/mm/pmm.cpp:188-255 | The in-place first fit, split and address computation do exactly what the values say, with the size taken in 64 bits. |
| FrameAllocator.Allocator.FreeFrame | src/kernel/mm/pmm.cpp:258-311 | The in-place release does exactly what the values say; a null pointer is ignored. |
| FrameAllocator.Allocator.MergeFree | src/kernel/mm/pmm.cpp:278-308 | The walks repeat until one merges nothing, and end. |
| FrameAllocator.Allocator.MergeWalk | src/kernel/mm/pmm.cpp:280-305 | One walk merges pairs of adjacent free blocks without looking at a merged block again. |
| PagingProofs.AddressParts | src/kernel/include/mm/vmm.hpp:19-25 | An address is its directory index, table index and offset, and nothing else. |
| PagingProofs.AllocPageWalk | src/kernel/mm/vmm.cpp:69-122 | What the processor finds changes for the allocated page only: its frame and the rights that both levels allow, if the present flag is given and the directory entry is present. |
| PagingProofs.FreePageWalk | src/kernel/mm/vmm.cpp:161-189 | Freeing a page removes that page and no other, and succeeds exactly if it was mapped. |
| PagingProofs.AllocPageWiredIff | src/kernel/mm/vmm.cpp:86-102 | A table pointer exists exactly where the directory entry is present; allocating keeps this exactly if the present flag is given or the table was there. |
| PagingProofs.RightsAsAskedIff | src/kernel/mm/vmm.cpp:90-112 | A page gets the rights asked for exactly if the first page of its table was given them too. |
| PagingRights.AllocPageNumbers | src/kernel/mm/vmm.cpp:69-122 | An allocated page is found exactly if its flags and the directory entry say present; its frame is the physical address divided by 4096, and it is writable exactly if bit 1 of the flags is set and an older directory entry allows it, open to user code by bit 2 in the same way, write-through by bit 3 and uncached by bit 4. |
| PagingRights.AllocPageEntries | src/kernel/mm/vmm.cpp:76-117 | The page entry gets these bits of the flags, bit 7 as PAT and bit 8 as global, and a new directory entry gets bits 0 to 4; other directory entries stay. |
| PagingRights.AllocThenTranslate | src/kernel/mm/vmm.cpp:69-230 | After an allocation `virtual_to_physical` gives the frame asked for plus the offset for addresses of that page, and what it gave before for all others; `is_mapped` likewise. |
| PagingRights.FreeThenTranslate | src/kernel/mm/vmm.cpp:161-230 | After a release addresses of that page translate to nothing and all others as before; it reports success exactly if the page was mapped. |
| PagingProofs.LookupsAgree | src/kernel/mm/vmm.cpp:192-230 | On such tables `is_mapped` and `virtual_to_physical` tell exactly what the processor would find. |
| PagingProofs.OffsetsCarryOver | src/kernel/mm/vmm.cpp:211 | Within a page the translation adds the offset. |
| PagingProofs.ZeroIsAmbiguousIff | src/kernel/mm/vmm.cpp:205-208 | The result 0 means that the page is not mapped, or that it is mapped to the first byte of memory, and nothing else. |
| PagingProofs.StepRefines | src/kernel/mm/vmm.cpp:69-189 | One allocation or release does to what the processor finds what it does to a plain map from pages to frames. |
| PagingProofs.RunRefines | src/kernel/mm/vmm.cpp:69-189 | In every run of allocations with the present flag and releases the two levels behave like one partial map. |
| PagingProofs.TlbInvisible | src/kernel/mm/vmm.cpp:119-187 | Whatever the processor caches and drops, its translations are those of the tables after every call, thanks to the `invlpg` of that page (section 4.10.4 of the Intel SDM, Volume 3A). |
| PagingProofs.LoopEndsIff | src/kernel/mm/vmm.cpp:156-158 | The identity-mapping loop ends exactly if the end lies below the last address of the start's residue in 4 GiB; otherwise the address wraps around for ever. |
| PagingProofs.IdentityMapFrames | src/kernel/mm/vmm.cpp:156-158 | Afterwards the visited pages are mapped to the frames of the same number, and no other page has changed. |
| PagingProofs.RegionCoveredIff | src/kernel/mm/vmm.cpp:156-158 | Every address of the region is mapped exactly if the start lies no further into its page than the end. |
| PagingRights.IdentityMapRights | src/kernel/mm/vmm.cpp:156-158 | The visited pages get the rights asked for as far as directory entries from before allow, and all other pages are found as before. |
| PagingRights.IdentityMapNumbers | src/kernel/mm/vmm.cpp:156-158 | Where there was no directory entry before, a visited page is writable, open to user code, write-through and uncached exactly by bits 1 to 4 of the flags. |
| PagingRights.InactiveStays | src/kernel/mm/vmm.cpp:69-230 | While paging is off, nothing changes, addresses are physical ones, and no page is mapped. |
| PagingTables.Vmm.AllocPage | src/kernel/mm/vmm.cpp:69-122 | The in-place update of directory, table pointers and table does exactly what the values say. |
| PagingTables.Vmm.FreePage | src/kernel/mm/vmm.cpp:161-189 | The in-place release and its result are exactly those of the values. |
| PagingTables.Vmm.VirtualToPhysical | src/kernel/mm/vmm.cpp:192-212 | Computes the translation of the values, 0 for none. |
| PagingTables.Vmm.IsMapped | src/kernel/mm/vmm.cpp:215-230 | Tells whether the page is mapped. |
| PagingTables.Vmm.IdentityMapRegion | src/kernel/mm/vmm.cpp:156-158 | The loop maps the region page by page, for regions that it can leave. |
| HeapProofs.MallocKeeps | src/kernel/mm/heap.cpp:42-78 | An allocation keeps the list in order, adds exactly a live block of the asked-for size, and changes no byte of a live payload. |
| HeapBlocks.MallocBlocks | src/kernel/mm/heap.cpp:51-70 | An allocation of s bytes from a block of n bytes at c replaces it in the list by a used block of s bytes at c and, exactly if n > s + 12, a free one of n - s - 12 bytes at c + 12 + s; all other blocks stay. |
| HeapBlocks.MallocFree | src/kernel/mm/heap.cpp:51-70 | The free blocks are the old ones without the one taken, and its rest exactly if more than twelve bytes are left over; all blocks together lose at most those twelve bytes. |
| HeapBlocks.MallocStep | src/kernel/mm/heap.cpp:42-78 | `kmalloc` takes the first free block that is large enough; without one nothing changes. |
| HeapProofs.Ordered | src/kernel/mm/heap.cpp:42-107 | Blocks with their headers never overlap. |
| HeapMerge.MergeKeeps | src/kernel/mm/heap.cpp:95-100 | Joining two free blocks keeps the list in order and all live payloads. |
| HeapMerge.FreeKeeps | src/kernel/mm/heap.cpp:80-113 | Freeing as it is meant, without re-entrant calls, takes exactly the block out of the live ones and changes no byte of another one, including the store of a zero word at the end, if at least four bytes lie before the next header. |
| HeapBlocks.FreeBlocksAfter | src/kernel/mm/heap.cpp:80-113 | Freeing as it is meant marks the block and joins pairs of free neighbours in one walk, with the header between them, and gives up no byte. |
| HeapBlocks.FreedJoins | src/kernel/mm/heap.cpp:90-107 | Without free neighbours in the list before, the freed block joins the free block before it, or else the one behind it; if both are free, the one behind stays on its own. |
| HeapReentry.QuietFree | src/kernel/mm/heap.cpp:80-113 | With the nested call of line 103, `kfree` does exactly what it is meant to if, in its walk, the byte eight before the header behind each merged block, which that call takes for a free flag, is not 0; for blocks of any size. |
| HeapRefine.WalkIs | src/kernel/mm/heap.cpp:91-107 | Every walk with all its nested calls ends, and does to the headers exactly what a recursion over their sizes, flags, links and those bytes says; the bytes of blocks in use stay. |
| HeapCells.WalkedKeeps | src/kernel/mm/heap.cpp:91-107 | In that recursion a block in use keeps its header, but its size becomes 0 exactly if its byte was set, which happens behind two free blocks only. |
| HeapFree.FreeReturns | src/kernel/mm/heap.cpp:80-113 | `kfree` returns with all its nested calls, whatever bytes they find, and touches nothing outside the heap. |
| HeapFree.OtherBlock | src/kernel/mm/heap.cpp:80-113 | Another block in use keeps its header, but its size becomes 0 exactly if it is one of those that the recursion over the headers before the call singles out. |
| HeapFree.OtherPayload | src/kernel/mm/heap.cpp:80-113 | No byte between the header of another block in use and the next header ever changes. |
| HeapFree.KeptIff | src/kernel/mm/heap.cpp:80-113 | For every list whose free blocks have room for eight bytes, free neighbours or not: all other blocks in use are as they were exactly if that recursion, which can be run before the call, singles out none that has a size. |
| HeapFree.GuardedSpares | src/kernel/mm/heap.cpp:80-113 | That is so if no block in use behind two blocks that are then free has a 0 where the nested call looks. |
| HeapFree.FreedInOrder | src/kernel/mm/heap.cpp:80-113 | Whatever the nested calls do, the headers then lead along a list in order, from which the freed block is the only one in use that is gone. |
| HeapQuiet.QuietIff | src/kernel/mm/heap.cpp:80-113 | The bytes that the walk meets are all set exactly if the recursion singles out no block at all. |
| HeapQuiet.KfreeIff | src/kernel/mm/heap.cpp:80-113 | If the freed block has room for twelve bytes, `kfree` leaves the memory as it is meant to exactly then. |
| HeapKept.SparesIff | src/kernel/mm/heap.cpp:80-113 | In a list without free neighbours and empty blocks the condition has a closed form: the byte before the header behind the merged blocks is not 0, or, with both neighbours free, that byte or the one before the header behind the second neighbour is not 0. |
| HeapFault.ThirdBlockLosesItsSize | src/kernel/mm/heap.cpp:80-130 | After three allocations of sixteen bytes and the release of the first, which all do what they are meant to, the release of the second makes the size of the third, which is in use, 0. |
| HeapFault.SizeLost | src/kernel/mm/heap.cpp:80-130 | The same run with `kcalloc` and `kfree` on the heap itself: the third block's size is 16 before and 0 after. |
| HeapFault.TinyBlockTakesASize | src/kernel/mm/heap.cpp:109-111 | After allocations of one byte and of sixteen, releasing the first makes the size of the second 0, because the cleared word reaches into its header. |
| HeapRuns.StepKeeps | src/kernel/mm/heap.cpp:42-113 | Each call as it is meant to be, and each write to a payload, keeps the list in order and every other block in use with its bytes. |
| HeapCoded.StepUntouched | src/kernel/mm/heap.cpp:42-113 | Each call as coded, with nested calls that set bytes or not, leaves a byte that another block in use owns to it and unchanged, and takes the block's size exactly if a release singles it out. |
| HeapCoded.Run | src/kernel/mm/heap.cpp:42-113 | In every run as coded of allocations, releases and writes to bytes that blocks in use own the list stays in order. |
| HeapCoded.ByteSurvives | src/kernel/mm/heap.cpp:42-113 | A byte of a block in use keeps its value through every such run that neither frees the block nor writes to it, and the block keeps its size exactly if no release of the run takes it. |
| HeapRuns.SizesFit | src/kernel/mm/heap.cpp:42-113 | All blocks with their headers together are no larger than the heap. |
| HeapBlocks.StepTotal | src/kernel/mm/heap.cpp:42-113 | The sizes of all blocks with their headers fall by at most twelve bytes per allocation and by nothing in the other calls as they are meant to be. |
| HeapBlocks.RunTotal | src/kernel/mm/heap.cpp:42-113 | In every run as coded whose releases meet no byte that is 0, at most twelve bytes are given up for each allocation. |
| HeapBlocks.HeaderBytes | src/kernel/include/mm/heap.hpp:17-21 | The bytes at which the fields of a header lie. |
| HeapBlocks.InitialBlocks | src/kernel/mm/heap.cpp:21-39 | `init` sets up one free block of 3 MiB less its header. |
| HeapRuns.InitialWellFormed | src/kernel/mm/heap.cpp:21-39 | The heap that `init` sets up is one free block. |
| HeapAllocator.KernelHeap.KMalloc | src/kernel/mm/heap.cpp:42-78 | The walk over the headers in the arena, the split and the stores do exactly what the values say; the result is the payload's address or 0. |
| HeapAllocator.KernelHeap.MergeWalk | src/kernel/mm/heap.cpp:90-107 | The walk in the arena, with a nested call after each merge, is exactly the one of the values. |
| HeapAllocator.KernelHeap.KFree | src/kernel/mm/heap.cpp:80-113 | The in-place release, with its walk and its nested calls, does to the bytes of the heap exactly what the values say, and what it is meant to if the nested calls meet no 0; null, addresses outside the heap and free blocks are ignored. |
| HeapAllocator.KernelHeap.KCalloc | src/kernel/mm/heap.cpp:116-130 | Allocates the product of the arguments modulo 2^32 and zeroes exactly that payload. |
| TreeProofs.UnlinkLinked | src/kernel/include/lib/data/tree.hpp:67-87 | Taking a child out of its parent's list leaves consistent parent and sibling pointers and no circle. |
| TreeProofs.AppendLinked | src/kernel/include/lib/data/tree.hpp:108-118 | Appending a child leaves consistent lists. |
| TreeProofs.AppendAcyclicIff | src/kernel/include/lib/data/tree.hpp:100-119 | Making a node a child keeps the tree free of circles exactly if the new parent does not lie below it. |
| TreeProofs.GoneAtEnd | src/kernel/include/lib/data/tree.hpp:124-130 | The subtrees of all children together are everything below a node but the node itself. |
| TreeModel.SiblingsApart | src/kernel/include/lib/data/tree.hpp:19-26 | Two children of one node have no common descendants. |
| TreeProofs.PreorderLists | src/kernel/include/lib/data/tree.hpp:200-209 | The traversal meets everything below a node, each node once, the node itself first. |
| TreeProofs.SiblingsInOrder | src/kernel/include/lib/data/tree.hpp:200-209 | The traversal visits the node, and the whole subtree of each child before that of any later child. |
| Tree.SiblingTree.Create | src/kernel/include/lib/data/tree.hpp:89-98 | A new node is on its own. |
| Tree.SiblingTree.Detach | src/kernel/include/lib/data/tree.hpp:67-87 | The node leaves its parent's list, whose other children keep their order; a node without parent is left alone. |
| Tree.SiblingTree.AddChild | src/kernel/include/lib/data/tree.hpp:100-119 | The child leaves its old parent and becomes the last child of the new one; the nodes still form a tree exactly if the new parent does not lie below the child. |
| Tree.SiblingTree.DeleteSubtree | src/kernel/include/lib/data/tree.hpp:121-145 | Gives back exactly the node and its descendants, each once and the node last; the parent's other children keep their order and everything else stays as it was. |
| Tree.SiblingTree.Traverse | src/kernel/include/lib/data/tree.hpp:200-209 | Visits the nodes in preorder. |
| Tree.SiblingTree.FindChild | src/kernel/include/lib/data/tree.hpp:163-173 | Finds the first child that satisfies the predicate, if there is one. |
| Paths.SplitPathTokens | src/kernel/lib/path_util.cpp:15-60 | Gives the leading slash and the names of a path, at most sixteen tokens, and nothing for an empty path. |
| Paths.SpreadTokens | src/kernel/lib/path_util.cpp:33-50 | Splitting undoes the concatenation of names, with any number of repeated and trailing slashes. |
| Paths.SegmentsConcat | src/kernel/lib/path_util.cpp:39-50 | A slash ends one name and starts the next. |
| VfsModel.PathNames | src/kernel/fs/ext/vfs.cpp:89-91 | A node's path splits into exactly the names down to it, and ends in a slash for directories. |
| VfsModel.PathRoundTripIff | src/kernel/fs/ext/vfs.cpp:159-183 | Looking up a node's path gives the node exactly if it lies at most fifteen levels deep and it and all nodes above it are the first of their name among their siblings. |
| VfsModel.FoundByPathIff | src/kernel/fs/ext/vfs.cpp:159-183 | A path leads to a node exactly if it begins with a slash, its first fifteen names are those down to the node, and the node and all above it are the first of their name. |
| VfsFault.ShadowedSibling | src/kernel/fs/ext/vfs.cpp:78-183 | After a file and then a directory of the same name are added below the root, the directory's path leads to the file. |
| VfsModel.UniqueIsFirst | src/kernel/fs/ext/vfs.cpp:78-113 | With different names among siblings every node is the first of its name, so that depth alone decides. |
| VfsModel.NewNodePathIff | src/kernel/fs/ext/vfs.cpp:88-97 | The path of a new node fits exactly if its name has no slash and it is not a file without a file system, which the code takes for a directory. |
| Vfs.FileTree.Init | src/kernel/fs/ext/vfs.cpp:50-65 | A root directory takes the place of the whole old tree. |
| Vfs.FileTree.AddNode | src/kernel/fs/ext/vfs.cpp:78-113 | Refuses exactly an empty name, a missing parent and a parent that is no directory; completes a child with the same path and kind; otherwise adds one new last child, after which every path fits exactly under the condition of `NewNodePathIff`. |
| Vfs.AddTwice | src/kernel/fs/ext/vfs.cpp:100-112 | Adding an entry of a mounted file system twice adds at most one node; the second call gives back the node of the first, with the inode that it has. |
| VfsModel.SamePathReused | src/kernel/fs/ext/vfs.cpp:100-107 | Where every path fits, a child with the path of a mounted entry has its name and kind, so that it is completed and not added again. |
| VfsModel.CompletedKeeps | src/kernel/fs/ext/vfs.cpp:102-107 | A child that is there already keeps its inode; only what is missing is filled in. |
| Vfs.FileTree.GetNode | src/kernel/fs/ext/vfs.cpp:159-183 | The walk over the tokens finds exactly the node that the names lead to. |
| Division.DivideStep | src/kernel/lib/math.cpp:128-134 | Each step divides one more bit, and the remainder's shift never loses a bit, even for divisors above 2^63. |
| Division.UDiv64 | src/kernel/lib/math.cpp:119-137 | The shift-subtract loop computes the quotient of all 64-bit numbers; 0 for the divisor 0. |
| Division.UMod64 | src/kernel/lib/math.cpp:140-156 | The shift-subtract loop computes the remainder; 0 for the divisor 0. |
| Numbers.UtoaBase | src/kernel/lib/string_util.cpp:215-234 | Writes the number's digits into the buffer, which is always large enough, from the back, and returns them. |
| Numbers.NoLeadingZero | src/kernel/lib/string_util.cpp:215-234 | The first digit is 0 only for the number 0, which has no other. |
| Numbers.DigitCharacters | src/kernel/lib/string_util.cpp:218 | The digits are decimal ones and capital letters up to F. |
| Numbers.HexToUint | src/kernel/lib/math.cpp:48-99 | Computes the value of hexadecimal digits modulo the width, with or without prefix; 0 for any other character. |
| Numbers.DecToUint32 | src/kernel/lib/math.cpp:102-116 | Computes the value of decimal digits modulo 2^32; 0 for any other character. |
| Numbers.DigitValueIff | src/kernel/lib/math.cpp:48-73 | Each value below ten belongs to one decimal digit, and each from ten to fifteen to one letter, large or small. |
| Numbers.BadCharacter | src/kernel/lib/math.cpp:48-116 | A text with another character in it counts as 0. |
| Numbers.PrefixOptional | src/kernel/lib/math.cpp:48-99 | A leading `0x` or `0X` changes nothing. |
| Numbers.ValueOfDigits | src/kernel/lib/string_util.cpp:215-234 | A printed number has its value, in every base up to 16. |
| Numbers.PrintedComesBackIff | src/kernel/lib/math.cpp:48-116 | Parsing a printed number gives the number modulo the parser's range, so it comes back exactly if it is in range. |
| Calendar.BcdRoundTrip | src/kernel/drivers/rtc.cpp:55-57 | Decoding a two-digit number undoes its encoding. |
| Calendar.BcdDigits | src/kernel/drivers/rtc.cpp:55-57 | The byte 16 a + b stands for the number 10 a + b, for all digits a and b. |
| Calendar.FullYearIff | src/kernel/drivers/rtc.cpp:69-71 | The clock's two digits stand for the only year from 1970 to 2069 that ends in them. |
| Calendar.ClosedFormCounts | src/kernel/drivers/rtc.cpp:83 | The closed form counts the days of all years before, for every year from 1970 on. |
| Calendar.DaysCount | src/kernel/drivers/rtc.cpp:83-87 | The code's day number is the number of days counted year by year and month by month. |
| Calendar.TimestampCounts | src/kernel/drivers/rtc.cpp:60-90 | For every valid date from 1970 to 2069 the timestamp is the number of seconds since 1970 and fits into 32 bits. |
| Calendar.KnownInstants | src/kernel/drivers/rtc.cpp:60-90 | The beginning of 1970 is 0, that of March 2000 is 951868800, and 19 January 2038, 03:14:07, is 2^31 - 1. |
| Calendar.DecodeTimestamp | src/kernel/drivers/rtc.cpp:95-137 | Every timestamp decodes to a valid date and time with that number of seconds; the month loop never reaches twelve. |
| Calendar.SameSeconds | src/kernel/drivers/rtc.cpp:60-137 | No two points in time have the same number of seconds. |
| Calendar.ClockRoundTrip | src/kernel/drivers/rtc.cpp:60-137 | Decoding the clock's time gives back the date and time, for all dates from 1970 to 2069. |
| Raster.DrawLine | src/kernel/graphics/render.cpp:128-146 | Plots the longer distance plus one points, from start to end, one per step of the longer axis, none more than half a point off the line. |
| Raster.LineStep | src/kernel/graphics/render.cpp:142-144 | Each round steps along the longer axis and keeps the error term within its bounds. |
| Raster.DrawCircleOutline | src/kernel/graphics/render.cpp:103-126 | Plots, row by row from the axis to the diagonal, exactly the last column that is not outside the circle, mirrored into eight pixels, and ends. |
| Raster.MirroredIff | src/kernel/graphics/render.cpp:108-116 | The eight pixels of an octant point (x, y) are exactly the points at distances x and y from the centre along the axes, in either order. |
| Raster.CircleStep | src/kernel/graphics/render.cpp:118-124 | The error term stays x^2 + y^2 + 2y - r^2 and between -2x and 0 while x is at least y. |
| Raster.NearCircle | src/kernel/graphics/render.cpp:108-116 | Each plotted octant point has x^2 + y^2 <= r^2 < (x + 1)^2 + (y + 1)^2. |
| Raster.OneOutline | src/kernel/graphics/render.cpp:103-126 | The outline is thereby determined: no two different sequences of pixels meet the contract. |
| Raster.OnePointPerRow | src/kernel/graphics/render.cpp:108-116 | The plotted column of a row is the only one with that property. |

## Left out

- FileContent.WriteFileContent: append mode is not modelled (it starts at the first direct block and indexes the input by absolute file offsets), nor are the look-up of the path, the check for directories and the failure of `kcalloc`; reads and writes fail only outside the device, and partitions are not modelled.
- FileRead.GetFileContents: the look-up of the path, permissions and the access time are not modelled.
- FileFree.FreeAll: states the intended number of entries as a parameter; what the code passes is stated by `FileFree.FreeBlocks`.
- FileReadProofs.OwnTablesReadBack: about a reader with pointer tables of its own, which the code is not; what the code reads is stated by `FileText.ReadsBackIff`.
- FileProofs.WriteThenReadWithOwnTables: about the same intended reader; the code's half is `FileProofs.WriteThenRead`.
- FileProofs.WriteThenFree: about releasing through whole tables, which the code does not do; `FileProofs.CodeReleasesAllIff` says when that makes no difference.
- FileRuns.WriteAndRelease: the same intended release.
- BlockStore.Ext2Fs.ReadBlock: each AHCI command is judged on its own; that a port may stay in its error state, or a command slot taken, after a refused read is not modelled.
- FileText.ReadsBackIff: for text no words of which, in the first block below an indirect pointer, lead to a block of the device; where they do, what is read depends on those blocks, and the exact condition is `FileText.BelowSingleIff` as far as the single indirect pointer reaches.
- FileText.BelowSingleIff: for files without blocks behind the double and triple indirect pointers; behind those, words of the text are taken for tables as well.
- FileText.LargeFileCutShort: for the texts of `FileText.ReadsBackIff`, and for the AHCI driver; with the ATA driver it is `FileText.LargeFileNeverReturned`.
- BlockStore.Ext2Fs.AllocBlock: whether the block handed out is free is stated for a group number of the superblock up to the first data block; the group number is 0 in the superblock at the start of a volume, which the kernel reads.
- DirBlock.InsertIntoBlock: the kind of the entry is a parameter instead of being read from the inode, and names are bytes without NUL; growing a directory by fresh blocks is not modelled, because a zeroed block ends the search at once without an insertion.
- DirBlock.RemoveFromBlock: an entry of size 0 before the one that is looked for would make the code's loop run for ever; the walk over the directory's blocks is not modelled.
- Writing the block group descriptors and the superblock back to the device (`rewrite_bgds`, `rewrite_sb`, which reads where it should write): the descriptors and the superblock are those in memory.
- `alloc_inode` and `free_inode`: bitmap arithmetic of the same kind as for blocks, and `alloc_inode` indexes a group's bitmap by the global inode number.
- Scheduler.Kernel.Schedule: the saving and loading of registers, stacks and the frames that hold them, and calls before `sched::init`, when there is no current process, are not modelled; `set_priority` is called nowhere.
- SchedModel.Tick: the tick counter and the interrupt controller are not modelled, and neither are interrupts inside `schedule()`.
- FrameAllocator.Allocator.AllocFrame: the check that the list head is mapped, the identity mapping of the new frames and the zeroing of the first one are not modelled.
- FrameAllocator.Allocator.FreeFrame: the loop that unmaps pages at the end is not modelled (it starts from address 0 and advances the node instead of its counter), and the caller must own the address, since the code uses an unset pointer otherwise.
- FrameRuns.OneFrameRunKeeps: about the form with the `prev` pointer put right; that the code fails there is `FrameFault.SameFrameTwice`, and exactly when one call fails is `FrameProofs.AllocKeepsIff`.
- The second memory region above 4 GiB of the frame allocator, which is there only with PAE.
- PagingTables.Vmm.AllocPage: page tables come from a supply of distinct frames instead of the frame allocator, which itself maps pages; 4 MiB pages and the accessed and dirty bits are not modelled.
- PagingTables.Vmm.IdentityMapRegion: stated for the regions that the loop can leave; that it leaves no others is `PagingProofs.LoopEndsIff`.
- FrameFresh.FreshRunKeeps: about the form in which the rest of a block gets an unused slot and the `prev` pointer is put right, which the code is not; what the code does is stated by `FrameProofs.AllocKeepsIff`, `FrameRuns.HandedOutFresh` and `FrameFault.CollisionReachable`.
- FrameRuns.RunKeeps: for the runs in which no call leaves a wrong `prev` pointer or loses a slot; for the others `FrameStale.TrustyRunKeeps`.
- FrameStale.UntakenIff: for an address that does not lie behind the block found or before the managed memory.
- HeapAllocator.KernelHeap.KFree: the caller must pass the payload of a block on the list with at least four bytes before the next header, for the store at line 111, and the call must return and stay inside the heap, which `HeapFree.FreeReturns` shows under its condition; where nested calls set bytes, the method promises the memory of `HeapReentry.Kfree`, whose list is that of `HeapFree.FreedInOrder`.
- HeapMerge.FreeKeeps: about `kfree` without its nested calls; with them it is `HeapReentry.QuietFree` or `HeapFree.OtherBlock`.
- HeapFree.KeptIff: for lists whose free blocks, and the freed one, have at least eight bytes before the next header. In smaller ones the byte that a nested call sets lies in a header. That `kfree` does what it is meant to if it meets no 0 is `HeapReentry.QuietFree`, for all of them.
- HeapFree.OtherBlock: for such lists.
- HeapFree.OtherPayload: for such lists.
- HeapFree.FreeReturns: for such lists.
- HeapFree.FreedInOrder: for such lists.
- HeapQuiet.KfreeIff: for such lists, and a freed block with at least twelve bytes, because the cleared word may hide a byte that was set.
- HeapKept.SparesIff: for such lists without free neighbours and empty blocks in use, of which `kmalloc` makes none; the general condition is `HeapFree.KeptIff`.
- HeapCoded.ByteSurvives: for runs whose releases either meet no 0 or find such lists.
- HeapBlocks.RunTotal: for runs whose releases meet no byte that is 0; the others take sizes away, as `HeapFree.OtherBlock` tells.
- HeapBlocks.FreeBlocksAfter: about `kfree` without its nested calls, like `HeapMerge.FreeKeeps`.
- HeapRuns.StepKeeps: about calls as they are meant to be; as coded it is `HeapCoded.StepUntouched`.
- Tree.SiblingTree.DeleteSubtree: nodes are numbers in a map instead of objects; a pointer to a freed node is a number that is no longer in the map.
- Vfs.FileTree.AddNode: inode contents, reference counts and the failure of `kcalloc` are not modelled; `find_inode` is the same walk as `get_node`.
- Numbers.UtoaBase: that the buffer is static, so that the next call overwrites the text, is not modelled; the signed printers only add a sign.
- Calendar.DecodeTimestamp: the formatting of the fields as text is not modelled.
- Raster.DrawLine: coordinates and error terms are unbounded integers; the code's 32-bit integers agree as long as twice the sum of both distances fits.
- Raster.DrawCircleOutline: pixel positions left of or above the origin wrap around in 32 bits in the code.
- Filled shapes, triangles, the terminal, the command line programs, device drivers and the assembly stubs.
- Memory management of the string and list classes, and running out of heap memory inside other operations.
