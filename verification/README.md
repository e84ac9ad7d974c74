# aurux, modelled and verified in Dafny

aurux is a small 32-bit kernel. This project models its storage, memory, process and account code in
Dafny and proves what that code promises. Each part has a specification made of values and functions,
theorems about the specification, and classes or methods over arrays and fields that run step by step
as the kernel does and are proved to compute exactly what the specification says.

- **ext2** (`Ext2*.dfy`, `Bits`, `Bytes`, `Arith`): bitmaps and counts, inode slots, block maps, directory
  records, and the file operations, on a disk of blocks. A file is a sequence of bytes, a directory a list
  of entries. `Ext2Layout` says what all of it is on raw bytes, `Ext2Creation` when creating succeeds.
- **Memory** (`Pages`, `HeapList`, `Heap`, `HeapLinks`, `KernelHeap`, `Spaces`, `CloneSteps`, `Paging`,
  `AddressSpaces`, `Mapping`): the page bitmap, the first-fit heap whose headers lie in the memory it
  manages, and two-level page tables with cloning and reaping.
- **FAT32** (`FatTable`, `FatVolume`, `FatFiles`, `FatLayout`, `FatDriver`, `LongNames`): chains, file data, the
  format on raw bytes, long names.
- **Pipes, descriptors, paths** (`Pipes`, `Descriptors`, `Paths`).
- **Scheduler** (`Rounds`, `Scheduler`): the circular list of tasks and round-robin selection.
- **Library** (`Sha256`, `Sha256Vector`, `Passwd`): streaming SHA-256 with a published example and password hashes,
  and the passwd rewriter.

`dafny verify dfyconfig.toml` checks the whole project.

Where the code does not do what it is for on all inputs, the code is modelled as it is, and a lemma gives
the exact condition: freeing a free block, inode or page breaks the counts (`Ext2Bitmap.FreeKeepsIff`,
`Pages.FreeCountedIff`); sizes close to 2^32 defeat `kmalloc` (`Heap.PagesEnoughIff`, `Heap.RoundCoversIff`);
offset + size may wrap in reads (`Ext2File.ToReadRightIff`, `FatFiles.ToReadRightIff`,
`FatFiles.SkipsRightIff`); deleting a file with indirect blocks leaks them (`Ext2Ops.DeleteFreesAllIff`);
long names end at 247 characters (`LongNames.RoundTripIff`); a fork that fails its stack check keeps the
descriptors counted (`Descriptors.ForkKeepsIff`); only short salts without a separator verify
(`Sha256.VerifiesOwnIff`). `hash_password` documents its buffer for 16 characters of salt; the code
accepts up to 31, and the model follows the code.

Well-formed start states are preconditions: a mounted ext2 image with exact counts and set padding bits,
tables of terminated disjoint FAT chains, memory whose page 0 is in use, a heap built by its own calls.

## Model

| member | source | states |
|---|---|---|
| Ext2Bitmap.MarkKeeps | src/fs/ext2/ext2.c:89-115 | Taking a free item lowers its group count and the total by one, and both still equal the numbers of clear bits. |
| Ext2Bitmap.UnmarkKeeps | src/fs/ext2/ext2.c:117-130 | Freeing an item in use keeps every count equal to the number of clear bits. |
| Ext2Bitmap.FreeKeepsIff | src/fs/ext2/ext2.c:117-130 | Freeing keeps the counts exact if and only if the item was in use: a double free always breaks them. |
| Ext2Bitmap.UnmarkMarkItem | src/fs/ext2/ext2.c:89-130 | Taking a free item and freeing it restores every bitmap and every count. |
| Ext2Bitmap.Split | src/fs/ext2/ext2.c:119-120 | The quotient and remainder of the free path are in bounds and recombine to the item. |
| Ext2Bitmap.Join | src/fs/ext2/ext2.c:107 | The number the allocator returns is in range and is mapped back to the same group and bit. |
| Ext2Bitmap.NothingFree | src/fs/ext2/ext2.c:90 | The superblock count is 0 exactly when every item is in use. |
| Ext2Bitmap.NoneFreeIff | src/fs/ext2/ext2.c:89-115 | Allocation fails exactly when nothing is free. |
| Ext2Bitmap.LowestItem | src/fs/ext2/ext2.c:91-110 | The first clear bit of the first group that is not full is the lowest free item of the whole pool. |
| Ext2Bitmap.ZerosMark | src/fs/ext2/ext2.c:101-105 | What setting or clearing one bit does to the number of clear bits. |
| Ext2Volume.MarkBlockKeeps | src/fs/ext2/ext2.c:89-115 | On the disk image: a valid volume stays valid, exactly one more block is in use, no content changes, and the block is a data block, never metadata. |
| Ext2Volume.UnmarkBlockKeeps | src/fs/ext2/ext2.c:117-130 | Freeing a block in use keeps the volume valid and touches no content. |
| Ext2Volume.MarkInodeKeeps | src/fs/ext2/ext2.c:132-158 | The same for taking an inode. |
| Ext2Volume.UnmarkInodeKeeps | src/fs/ext2/ext2.c:160-173 | The same for freeing an inode. |
| Ext2Volume.UnmarkMarkBlock | src/fs/ext2/ext2.c:89-130 | Taking a block and giving it back restores the image byte for byte. |
| Ext2Volume.UnmarkMarkInode | src/fs/ext2/ext2.c:132-173 | The same for an inode. |
| Ext2Volume.FreeBlockKeepsIff | src/fs/ext2/ext2.c:117-130 | Freeing a block in range keeps the volume valid if and only if it was in use and is a data block. |
| Ext2Volume.FreeInodeKeepsIff | src/fs/ext2/ext2.c:160-173 | Freeing an inode keeps the volume valid if and only if it was in use. |
| Ext2Volume.DoubleFree | src/fs/ext2/ext2.c:160-173 | Freeing an inode twice always breaks the counts; deleting through the second name of a linked file does it. |
| Ext2Runs.RunCounts | src/fs/ext2/ext2.c:89-173 | After every step of any run of allocations and frees the superblock counts are the numbers of clear bits of all groups. |
| Ext2Runs.SmallValid | src/fs/ext2/ext2.c:538-570 | A small mounted volume meets what the theorems assume. |
| Ext2Runs.SmallFs | src/fs/ext2/ext2.c:538-570 | So does a file system with an empty directory. |
| Ext2Runs.SmallDoubleFree | src/fs/ext2/ext2.c:117-130 | A concrete block given back twice on that volume. |
| Ext2Inode.SlotPlace | src/fs/ext2/ext2.c:32-42 | An inode slot lies inside one block of its own group's inode table. |
| Ext2Inode.SlotsDisjoint | src/fs/ext2/ext2.c:67-87 | The slots of two inodes share no byte. |
| Ext2Inode.InodeAfterPut | src/fs/ext2/ext2.c:67-87 | A written inode reads back as written and every other inode as before; the volume stays valid. |
| Ext2Inode.FieldsApart | src/fs/ext2/ext2.c:438-439 | Setting one field of an inode leaves the other fields. |
| Ext2Inode.CountFieldsApart | src/fs/ext2/ext2.c:439 | ... and the same for link and sector counts. |
| Ext2Inode.DirTestIff | src/fs/ext2/ext2.c:194 | The driver's one-bit test passes exactly directories, block devices and sockets. |
| Bits.BitOfIs | src/fs/ext2/ext2.c:101-102 | A bit of a word as arithmetic: (w >> i) is odd. |
| Bytes.GetIs | src/fs/ext2/ext2.h:86-113 | A 16- or 32-bit field is its bytes, the lowest first. |
| Bytes.PutIs | src/fs/ext2/ext2.h:86-113 | Storing a field gives those bytes and leaves every other byte. |
| Ext2Layout.BitmapLayout | src/fs/ext2/ext2.c:98-103 | Item k of a bitmap is bit k % 8, from the low end, of byte k / 8. |
| Ext2Layout.SlotLayout | src/fs/ext2/ext2.c:32-44 | Inode i is 128 bytes at entry (i - 1) % inodesPerGroup of the table its group's descriptor names. |
| Ext2Layout.InodeLayout | src/fs/ext2/ext2.h:86-105 | Mode at byte 0, size at 4, links at 26, sectors at 28, pointer k at 40 + 4 * k. |
| Ext2Layout.FreshLayout | src/fs/ext2/ext2.c:643-650 | A new inode: mode at 0, uid at 2, gid at 24, links at 26, zeros elsewhere. |
| Ext2Layout.LinkedLayout | src/fs/ext2/ext2.c:730 | One link more on 16 bits, and no other byte. |
| Ext2Layout.ErasedLayout | src/fs/ext2/ext2.c:765-768 | Size, links and sectors 0, deletion time 1, every other byte kept. |
| Ext2Layout.AttachLayout | src/fs/ext2/ext2.c:438-439 | The pointer and the sector count, and no other byte. |
| Ext2Layout.RecordLayout | src/fs/ext2/ext2.h:107-113 | Inode number at 0, record length at 4, name length at 6, file type at 7, name from 8 on. |
| Ext2Layout.BlockMapLayout | src/fs/ext2/ext2.c:175-191 | Block k is pointer k of the inode for k < 12, and word k - 12 of the block that pointer 12 names behind that, decoded from raw bytes; 0 behind the last word. |
| Ext2Layout.ContentLaid | src/fs/ext2/ext2.c:374-409 | The content of a file is the blocks of its pointer list laid end to end, holes as zeros, cut at the size. |
| Ext2Layout.ByteLaid | src/fs/ext2/ext2.c:374-409 | The byte that any offset stands for, from the raw bytes of the disk. |
| Ext2Fs.AbsPutInode | src/fs/ext2/ext2.c:67-87 | Writing an inode changes exactly that inode of the abstract file system. |
| Ext2Fs.AbsWriteData | src/fs/ext2/ext2.c:23-27 | Writing a data block changes exactly that block. |
| Ext2Fs.AbsMarkBlock | src/fs/ext2/ext2.c:89-115 | On the abstract file system (sets of used blocks and live inodes) allocation adds exactly that block. |
| Ext2Fs.AbsFirstFreeBlock | src/fs/ext2/ext2.c:91-110 | The scan of the bitmaps and the scan of the abstract set find the same block. |
| Ext2File.FileBlocksApart | src/fs/ext2/ext2.c:175-191 | No two files, and no two places of one file, share a block. |
| Ext2File.WriteLoopWrites | src/fs/ext2/ext2.c:433-461 | The loop stores a prefix of the data, keeps ownership sound, and changes no other file. |
| Ext2File.WriteLoopShort | src/fs/ext2/ext2.c:433-447 | It stops short only at a hole it cannot fill: no free block, or no direct pointer reaches there. |
| Ext2File.WriteFileRefines | src/fs/ext2/ext2.c:411-470 | A write that returns n replaces bytes off..off+n, zero-fills the gap, grows the size as needed, and keeps the invariant, in particular zeros behind the end. |
| Ext2File.WriteFileContent | src/fs/ext2/ext2.c:411-470 | The same as an equation: the new bytes are the old ones overlaid with data[..n] at off, and every other file's bytes are equal. |
| Ext2File.ToReadRightIff | src/fs/ext2/ext2.c:379-381 | The byte count of a read is right if and only if offset + size does not wrap (or the offset is behind the end). |
| Ext2File.ToReadWraps | src/fs/ext2/ext2.c:381 | A concrete request for which the count exceeds the file. |
| Ext2Records.InsertEntries | src/fs/ext2/ext2.c:260-286 | Splitting a record keeps the block tiled and inserts exactly one (name, inode) pair into its list. |
| Ext2Records.ClearEntries | src/fs/ext2/ext2.c:604-608 | Clearing a record keeps the block tiled and removes the first entry of that name. |
| Ext2Records.FindRecIs | src/fs/ext2/ext2.c:206-217 | The scan of a block agrees with the list of its entries, both when it finds and when it does not. |
| Ext2Dir.FindIs | src/fs/ext2/ext2.c:193-223 | For every name the scan over all blocks agrees with the abstract directory. |
| Ext2Dir.AddEntryKeeps | src/fs/ext2/ext2.c:248-307 | On success the directory gains exactly that pair and all else holds; on failure only the content of a free block may differ. |
| Ext2Dir.InsertedLookup | src/fs/ext2/ext2.c:248-307 | After adding a new name, it leads to the new inode and every other name where it led before. |
| Ext2Dir.RemoveEntryKeeps | src/fs/ext2/ext2.c:591-618 | Exactly the first entry of the name goes; it succeeds if and only if the name was there. |
| Ext2Ops.CreateFileKeeps | src/fs/ext2/ext2.c:639-660 | Success adds exactly one pair and one inode; failure leaves both bitmaps and the directory as they were. |
| Ext2Ops.CreateDirKeeps | src/fs/ext2/ext2.c:681-734 | Success makes a directory with "." and ".." and adds its pair; failure changes nothing, or (parent full) leaks the inode and the block. |
| Ext2Ops.DropFileKeeps | src/fs/ext2/ext2.c:758-771 | Deleting keeps the invariant and takes exactly the inode and its direct blocks out of use. |
| Ext2Ops.DeleteFreesAllIff | src/fs/ext2/ext2.c:758-763 | Delete frees exactly the blocks the file owned if and only if i_block[12..14] are 0. |
| Ext2Ops.DeleteFileKeeps | src/fs/ext2/ext2.c:736-775 | The name, the inode and the direct blocks go; every other file and directory is the same. |
| Ext2Creation.FitRecFirst | src/fs/ext2/ext2.c:259-287 | The scan of a block stops at the first record with enough spare bytes, and finds nothing only if no record has them. |
| Ext2Creation.AddEntryIff | src/fs/ext2/ext2.c:248-307 | An entry is added exactly if a record has room or a block can be appended, and a block is appended only if no record has room. |
| Ext2Creation.CreateFileIff | src/fs/ext2/ext2.c:639-660 | A file is created exactly if an inode is free and its name finds room or a new block. |
| Ext2Creation.CreateDirIff | src/fs/ext2/ext2.c:681-734 | A directory is created exactly if an inode and a block are free and its name finds room or a second block. |
| Ext2Creation.CreateDirLinks | src/fs/ext2/ext2.c:699-731 | The new inode has one block and its two links, and the parent has one link more. |
| Ext2Creation.DeletedInode | src/fs/ext2/ext2.c:758-769 | The deleted inode has deletion time 1, no size, links, sectors or direct blocks; its indirect pointers stay. |
| Ext2Ops.RunKeeps | src/fs/ext2/ext2.c:411-775 | After any run of create, mkdir, write and delete every block of a live inode is marked, is no metadata, and sits in one slot of one inode; tails are zero and directories tiled. |
| Ext2Driver.FirstClearBit | src/fs/ext2/ext2.c:96-103 | The byte-then-bit search returns the lowest clear bit. |
| Ext2Driver.FitScan | src/fs/ext2/ext2.c:259-268 | The scan for room stops at the first record with enough slack. |
| Ext2Driver.FindScan | src/fs/ext2/ext2.c:204-217 | The scan for a name stops at the first record of that name. |
| Ext2Driver.Ext2.AllocateBlock | src/fs/ext2/ext2.c:89-115 | In place: the lowest free block, or 0 when none is free; the new image is the specified one. |
| Ext2Driver.Ext2.FreeBlock | src/fs/ext2/ext2.c:117-130 | In place: clears the bit and raises the counts, or ignores a number out of range. |
| Ext2Driver.Ext2.AllocateInode | src/fs/ext2/ext2.c:132-158 | In place: the lowest free inode, or 0. |
| Ext2Driver.Ext2.FreeInode | src/fs/ext2/ext2.c:160-173 | In place: frees the inode or ignores a bad number. |
| Ext2Driver.Ext2.ReadInode | src/fs/ext2/ext2.c:29-47 | Returns the 128 bytes of the inode's slot, or -1. |
| Ext2Driver.Ext2.WriteInode | src/fs/ext2/ext2.c:67-87 | Stores the 128 bytes in the slot and nothing else. |
| Ext2Driver.Ext2.GetFileBlock | src/fs/ext2/ext2.c:175-191 | The block behind a file block number, through the direct and the single indirect pointers. |
| Ext2Driver.Ext2.ReadFile | src/fs/ext2/ext2.c:375-409 | The buffer receives exactly the slice of the file's byte sequence (holes are zeros) and nothing behind it changes. |
| Ext2Driver.Ext2.WriteFile | src/fs/ext2/ext2.c:411-470 | The block-by-block loop on the disk does what the specified write does. |
| Ext2Driver.Ext2.FindInDir | src/fs/ext2/ext2.c:193-223 | An inode that fails the one-bit test is refused; otherwise the lookup on the disk is the abstract lookup, and it returns the inode found. |
| Ext2Driver.Ext2.AppendBlock | src/fs/ext2/ext2.c:225-246 | Appends a zeroed block to a directory, or gives the block back when no direct pointer is left. |
| Ext2Driver.Ext2.AddDirEntry | src/fs/ext2/ext2.c:248-307 | Inserts in the first record with room, else in a new block. |
| Ext2Driver.Ext2.RemoveDirEntry | src/fs/ext2/ext2.c:591-618 | Clears the first record of the name. |
| Ext2Driver.Ext2.CreateFile | src/fs/ext2/ext2.c:620-660 | The sequence of allocation, inode write and directory insertion with its rollback. |
| Ext2Driver.Ext2.CreateDir | src/fs/ext2/ext2.c:662-734 | The same for a directory, with its first block and the link count of the parent. |
| Ext2Driver.Ext2.DeleteFile | src/fs/ext2/ext2.c:736-775 | Frees the direct blocks, clears and frees the inode, removes the name. |
| Pages.AllocNullIff | src/memory/memory.c:39-55 | With page 0 in use, null is returned exactly when every page is in use; with page 0 free it is handed out as null. |
| Pages.AllocCounted | src/memory/memory.c:39-55 | used_memory stays 4096 times the number of set bits. |
| Pages.FreeCountedIff | src/memory/memory.c:57-68 | Freeing keeps that equality if and only if the call is ignored or the page was in use. |
| Pages.FreeAlloc | src/memory/memory.c:39-68 | Freeing the page just allocated restores bitmap and counter. |
| Pages.LowestFirst | src/memory/memory.c:40-44 | No free page lies below the one chosen. |
| Pages.SetBitUsed | src/memory/memory.c:44-66 | A word operation on the bitmap changes the set of used pages by exactly that page. |
| Pages.Memory.constructor | src/memory/memory.c:13-37 | After start-up exactly the pages below the kernel's end are in use and counted. |
| Pages.Memory.AllocPage | src/memory/memory.c:39-55 | In place: the lowest free page, cleared. |
| Pages.Memory.FreePage | src/memory/memory.c:57-68 | In place: clears the bit, or ignores an unaligned or too large address. |
| Heap.PagesEnoughIff | src/memory/memory.c:115-116 | The pages computed on 32 bits hold header and payload if and only if no addition wraps; for 0xFFFFFFF4 bytes they are 0. |
| Heap.RoundCoversIff | src/memory/memory.c:81 | Rounding up to 4 covers the request exactly up to 0xFFFFFFFC. |
| Heap.PickIff | src/memory/memory.c:86-134 | The first fitting free block is used, else the lowest run of enough free pages, and nothing exactly when there is neither. |
| Heap.MallocNullIff | src/memory/memory.c:78-160 | For nonzero sizes in range null is returned if and only if no block fits and no run of free pages is long enough. |
| Heap.MallocKeeps | src/memory/memory.c:78-160 | kmalloc keeps the heap well formed and adds exactly one block in use, between the rounded size and 28 bytes more; all others stay. |
| Heap.MallocPages | src/memory/memory.c:107-145 | Exactly the pages needed are claimed, a run that was free, and only if no block fits; kfree gives none back. |
| Heap.FreeBlkKeeps | src/memory/memory.c:162-181 | kfree keeps the heap well formed and removes exactly that block from those in use. |
| Heap.RunKeeps | src/memory/memory.c:78-181 | So the heap is well formed after every run of calls. |
| Heap.LivePayloads | src/memory/memory.c:78-181 | What well formed gives: payloads share no word, sizes and headers sum to 4096 per page, no two list neighbours are adjacent free blocks. |
| HeapList.TakeKeeps | src/memory/memory.c:88-103 | Splitting or taking a block keeps the partition, the sum, and full coalescing. |
| HeapList.TakeSplitsIff | src/memory/memory.c:92-103 | A block is split exactly if more than 28 bytes are left over; the parts and one header make it up. |
| HeapList.FreshKeeps | src/memory/memory.c:139-157 | Appending a block over fresh pages extends the partition by exactly those pages. |
| HeapList.CoalesceKeeps | src/memory/memory.c:168-180 | One pass over any well-formed list leaves no mergeable neighbours, keeps partition and sum, and no block in use changes. |
| HeapList.FreeKeeps | src/memory/memory.c:162-181 | Marking a block and the pass together remove exactly that block from the list of those in use. |
| HeapList.FirstFit | src/memory/memory.c:87-109 | The position found holds a free block that is large enough. |
| HeapLinks.ReplaceLinked | src/memory/memory.c:90-99 | Rewriting headers inside one block relinks the in-memory list as specified. |
| HeapLinks.HeaderKept | src/memory/memory.c:168-180 | A write to a header is to no payload in use and to no page outside the heap. |
| KernelHeap.Kernel.Kmalloc | src/memory/memory.c:78-160 | The walk and the header writes in raw memory give the specified heap; no live payload and no foreign page changes; the counter stays exact. |
| KernelHeap.Kernel.Kfree | src/memory/memory.c:162-181 | The same for kfree with its coalescing loop. |
| KernelHeap.Kernel.FindRun | src/memory/memory.c:121-134 | The counting scan of the bitmap finds the lowest long enough run of free pages. |
| Paging.CloneViews | src/memory/paging.c:75-111 | Every user page of the clone has the flags (on both levels) and bytes of the source, the source is unchanged, kernel entries are shared. |
| Paging.CloneWriteInvisible | src/memory/paging.c:92-106 | A write to any page of the clone changes no user page of the source ... |
| Paging.SourceWriteInvisible | src/memory/paging.c:92-106 | ... and a write to any page that was in use before changes no user page of the clone. |
| Paging.CloneSpaceOk | src/memory/paging.c:88-109 | Every table and frame the clone refers to is a page in use. |
| Paging.ReapClone | src/kernel/task.c:232-248 | Reaping an unchanged clone restores the bitmap and used_memory exactly. |
| Paging.FreeAllUsed | src/kernel/task.c:236-247 | Freeing distinct pages in use removes exactly them and lowers the counter by 4096 each. |
| CloneSteps.StepPresent | src/memory/paging.c:95-103 | One present entry: a fresh frame with the same flags and bytes, and nothing used before is touched. |
| CloneSteps.DirPresent | src/memory/paging.c:89-108 | One copied table entered into the new directory. |
| AddressSpaces.CreateAddressSpace | src/memory/paging.c:58-73 | A fresh directory with the 32 kernel entries and no user entry, or 0 when no page is free. |
| AddressSpaces.CloneTable | src/memory/paging.c:90-106 | The inner loop: a whole table and all its pages copied into fresh pages. |
| AddressSpaces.CloneAddressSpace | src/memory/paging.c:75-111 | The whole clone in place; 0 with nothing changed when no page is free. |
| AddressSpaces.ReapSpace | src/kernel/task.c:232-248 | The reaping loops free exactly the frames, the tables and the directory, in that order. |
| Mapping.MapViews | src/memory/paging.c:38-52 | After mapping, the address finds the page with its flags and every other user address finds what it found before. |
| Mapping.MapKeepsTree | src/memory/paging.c:38-52 | Mapping keeps the directory, its tables and the mapped pages different pages. |
| Mapping.MapKeepsSpace | src/memory/paging.c:38-52 | ... and in use. |
| Mapping.EmptySpace | src/memory/paging.c:58-73 | A new directory maps and owns nothing. |
| Mapping.CloneTree | src/memory/paging.c:75-111 | All pages of a clone are different. |
| Mapping.NewTableBits | src/memory/paging.c:47 | The entry of a fresh table sets bits 0, 1 and 2 (present, writable, user), no other flag bit, and the page number above. |
| Mapping.AddressParts | src/memory/paging.c:39-40 | Directory index, table index and offset make up the address. |
| Mapping.MapAddress | src/memory/paging.c:38-52 | Mapping on addresses: the entry has the frame of the physical address and exactly the flags given. |
| Mapping.MapPage | src/memory/paging.c:38-52 | Mapping in place, with a zeroed fresh table if there was none. |
| FatTable.ChainNoDup | src/fs/fat32/fat32.c:145-154 | A chain that ends with an end mark visits no cluster twice. |
| FatTable.ChainUnique | src/fs/fat32/fat32.c:145-154 | A cluster starts at most one chain. |
| FatTable.Extend | src/fs/fat32/fat32.c:201-223 | Marking a free cluster and linking the old end to it lengthens the chain by that cluster. |
| FatTable.FindFreeIff | src/fs/fat32/fat32.c:184-198 | The search returns 0 exactly when no entry from cluster 2 on is free ... |
| FatTable.FindFreeLeast | src/fs/fat32/fat32.c:184-198 | ... and otherwise the least free cluster. |
| FatTable.FreeChain | src/fs/fat32/fat32.c:225-232 | The walk terminates on every table whose entries stay in range, cyclic or not (measure: nonzero entries). |
| FatTable.FreeChainClears | src/fs/fat32/fat32.c:225-232 | On any such table it only clears entries ... |
| FatTable.FreeChainExact | src/fs/fat32/fat32.c:225-232 | ... and on a chain it clears exactly the chain's entries. |
| FatTable.FreeChainFrame | src/fs/fat32/fat32.c:225-232 | Every chain apart from the freed one is still a chain. |
| FatVolume.SetFatIs | src/fs/fat32/fat32.c:156-174 | Writing an entry changes the low 28 bits of that entry in every copy and nothing else: copies keep agreeing, top bits stay. |
| FatVolume.PutRawAt | src/fs/fat32/fat32.c:156-174 | Entries of different clusters or copies share no bits on disk. |
| FatFiles.AllocateIs | src/fs/fat32/fat32.c:201-223 | What allocation does to the table; copies keep agreeing. |
| FatFiles.GrowStep | src/fs/fat32/fat32.c:686-691 | Extending the file keeps its bytes, its chain, and every cluster of every other file. |
| FatFiles.PutStep | src/fs/fat32/fat32.c:694-709 | One more sector: the file now also holds these bytes of the buffer. |
| FatFiles.WholeFile | src/fs/fat32/fat32.c:683-709 | The whole file after a write: the bytes stored, zeros to the end of that sector, then the old file, zeros in its new clusters. |
| FatFiles.ReadBack | src/fs/fat32/fat32.c:379-420 | Any part of what the write loop stored is that part of the buffer. |
| FatFiles.OthersKept | src/fs/fat32/fat32.c:675-713 | Another file keeps its chain and its bytes and stays disjoint. |
| FatFiles.WriteKeepsFiles | src/fs/fat32/fat32.c:675-713 | Writing one file keeps all files of the volume pairwise disjoint, terminated chains. |
| FatFiles.FreeKeepsFiles | src/fs/fat32/fat32.c:225-232 | Freeing a file clears exactly its clusters and keeps the other files, chains and bytes. |
| FatFiles.RoundTrip | src/fs/fat32/fat32.c:675-721 | After a whole write the directory entry names the chain and its length, and every part read back is that part of the buffer. |
| FatFiles.WrittenOthers | src/fs/fat32/fat32.c:675-721 | The whole write, entry included, leaves every other file's chain and bytes. |
| FatFiles.ToReadRightIff | src/fs/fat32/fat32.c:392-393 | The byte count is right exactly when offset + size does not wrap. |
| FatFiles.SkipsRightIff | src/fs/fat32/fat32.c:402 | The test for skipping a sector is right exactly below the last sector of the 32-bit range. |
| FatLayout.EntryLayout | src/fs/fat32/fat32.c:145-154 | A table entry is four bytes at cluster * 4, lowest first, without the top four bits. |
| FatLayout.EndLayout | src/fs/fat32/fat32.c:163-173 | The end mark is FF FF FF and half an F in every copy, the other half kept. |
| FatLayout.DataLayout | src/fs/fat32/fat32.c:691-700 | A byte of a file on the disk: cluster c is sectorsPerCluster sectors at (c - 2) * sectorsPerCluster behind the tables. |
| FatLayout.DirEntryLayout | src/fs/fat32/fat32.h:37-50 | First cluster in two halves at bytes 20 and 26 of the entry, size at 28. |
| FatLayout.DirEntryWritten | src/fs/fat32/fat32.c:711-719 | The update writes these fields and leaves every other byte of the sector. |
| FatDriver.Fat32.GetNextCluster | src/fs/fat32/fat32.c:145-154 | Reads the low 28 bits of the entry. |
| FatDriver.Fat32.WriteFatEntry | src/fs/fat32/fat32.c:156-174 | In place, in every copy. |
| FatDriver.Fat32.FindFreeCluster | src/fs/fat32/fat32.c:176-199 | The scan that reads a sector only when it enters it equals the plain search. |
| FatDriver.Fat32.AllocateCluster | src/fs/fat32/fat32.c:201-223 | In place, with the cluster cleared. |
| FatDriver.Fat32.FreeChainFrom | src/fs/fat32/fat32.c:225-232 | In place; ends on any table in range. |
| FatDriver.Fat32.WriteData | src/fs/fat32/fat32.c:676-709 | The write loop: a prefix is stored, the chain is extended by no more clusters than the data needs, and it stops short only when the chain is full and no cluster is free. |
| FatDriver.Fat32.WriteFile | src/fs/fat32/fat32.c:669-721 | The loop and the update of the directory entry. |
| FatDriver.Fat32.ReadFile | src/fs/fat32/fat32.c:379-420 | The buffer receives exactly the requested slice of the file, nothing behind it changes. |
| LongNames.RoundTripIff | src/fs/fat32/fat32.c:66-93 | A built name decodes to itself if and only if it has at most 247 characters, for all NUL-free names of 1 to 255, whatever the buffer held. |
| LongNames.DecodeIs | src/fs/fat32/fat32.c:66-93 | In general the first 247 characters come back. |
| LongNames.FindsLongNameIff | src/fs/fat32/fat32.c:44-120 | A scan that reaches the slots of a name finds it there exactly when it has at most 247 characters or its short form matches. |
| LongNames.FindsVariantIff | src/fs/fat32/fat32.c:44-120 | For any name searched: it is found there exactly when it equals the first 247 characters but for case, or the short form matches. |
| LongNames.SameLetterIff | src/fs/fat32/fat32.c:34-42 | Letters match in either case, every other byte only itself. |
| LongNames.CollectPart | src/fs/fat32/fat32.c:72-84 | Collecting one part adds its 13 characters to those already in place. |
| LongNames.BuildEntries | src/fs/fat32/fat32.c:560-585 | The entries are the parts in reverse order, followed by the short entry. |
| LongNames.FindEntry | src/fs/fat32/fat32.c:44-120 | The scan with one buffer is the specified search. |
| LongNames.LfnChecksum | src/fs/fat32/fat32.c:13-19 | The rotate-and-add sum of the 11 bytes. |
| LongNames.SumStepBits | src/fs/fat32/fat32.c:16 | A step turns the sum right by one bit, bit by bit, and adds the byte on 8 bits. |
| LongNames.ReadmeSum | src/fs/fat32/fat32.c:13-19 | The checksum of "README  TXT" is 115. |
| LongNames.PartLayout | src/fs/fat32/fat32.c:575-580 | The parts side by side are the name followed by one zero unit and 0xFFFF to the end of the last part, nothing if it is full. |
| LongNames.ScanForgets | src/fs/fat32/fat32.c:61-94 | Past a deleted slot, or a short entry of another file, no part collected before counts. |
| Pipes.ReadTakesFirst | src/fs/pipe.c:12-39 | A round of the read loop takes the oldest byte of the queue, or changes nothing. |
| Pipes.WriteAppends | src/fs/pipe.c:49-74 | A round of the write loop appends a byte, or changes nothing. |
| Pipes.ReadAnswers | src/fs/pipe.c:14-27 | A read ends exactly at an empty pipe without writers, waits exactly at an empty one with writers, and takes a byte otherwise. |
| Pipes.WriteAnswers | src/fs/pipe.c:51-62 | A write is broken exactly without readers, waits exactly at a full pipe with readers, and stores a byte otherwise. |
| Pipes.ReadRoundIff | src/fs/pipe.c:12-39 | On the system: when a read with bytes to go ends, when it puts the task to sleep, and which byte it adds. |
| Pipes.WriteRoundIff | src/fs/pipe.c:49-74 | The same for a write. |
| Pipes.DoneRound | src/fs/pipe.c:12-74 | A call with no bytes to go ends, and changes nothing else. |
| Pipes.WakesAll | src/fs/pipe.c:34-36 | A byte taken or stored, and every close, leave nobody asleep on the pipe. |
| Pipes.StepKeeps | src/fs/pipe.c:12-94 | Every atomic step of any number of readers and writers keeps the invariant. |
| Pipes.TakenIsPrefix | src/fs/pipe.c:12-74 | In every state of every run the bytes taken are a prefix of the bytes stored, at most 4096 behind, and the positions agree. |
| Pipes.NeverBothAsleep | src/fs/pipe.c:14-56 | No wakeup is lost: a reader and a writer never sleep on the pipe together. |
| Pipes.FreedIdle | src/fs/pipe.c:86-90 | When the pipe's memory is freed no call on it is in progress. |
| Pipes.OneToOne | src/fs/pipe.c:12-74 | With one reader and one writer the reader has exactly the first bytes the writer stored. |
| Pipes.Ring.ReadRound | src/fs/pipe.c:14-36 | The ring buffer in place. |
| Pipes.Ring.WriteRound | src/fs/pipe.c:51-71 | The ring buffer in place. |
| Pipes.Ring.Close | src/fs/pipe.c:78-94 | Drops one end and frees with the last one; queued bytes stay. |
| Descriptors.OpenKeeps | src/fs/fs.c:251-291 | Open keeps counts equal to pointers; a failed open changes no table. |
| Descriptors.OpenPipeKeeps | src/fs/fs.c:139-192 | The same for pipe. |
| Descriptors.CloseKeeps | src/fs/fs.c:327-342 | The entry and its driver's close go exactly when the last pointer goes. |
| Descriptors.Dup2Keeps | src/fs/fs.c:344-360 | dup2 makes the two slots equal and keeps the counts, also between slots that already share an entry. |
| Descriptors.InheritKeeps | src/kernel/task.c:186-195 | Counts stay pointers when a process is created. |
| Descriptors.InheritShares | src/kernel/task.c:186-195 | Slot k of a new process is slot k of its creator, each entry is counted once more per slot, and no other table or field changes. |
| Descriptors.ForkShares | src/kernel/task.c:445-477 | A fork that passes its check does the same; one that fails has counted but adds no task. |
| Descriptors.CountInIs | src/kernel/task.c:186-195 | The count of a table is the number of its slots that point to the entry. |
| Descriptors.OpenIff | src/fs/fs.c:256-279 | Open succeeds exactly if a driver was found and agreed and a slot and an entry are free. |
| Descriptors.OpenExact | src/fs/fs.c:281-290 | The lowest free slot points to the lowest free entry, new at offset 0 with count 1; nothing else changes. |
| Descriptors.OpenPipeIff | src/fs/fs.c:143-162 | pipe succeeds exactly if memory is found and two slots and two entries are free. |
| Descriptors.OpenPipeExact | src/fs/fs.c:165-191 | The lowest two of each; the lower slot is the reading end. |
| Descriptors.CloseExact | src/fs/fs.c:327-342 | Only that slot is emptied and only that entry counts one less; an invalid descriptor changes nothing. |
| Descriptors.Dup2Exact | src/fs/fs.c:344-360 | dup2 succeeds exactly for an open descriptor and a new one in range; kinds and offsets of all entries stay. |
| Descriptors.ForkKeepsIff | src/kernel/task.c:445-477 | A fork keeps the counts right if and only if its kernel-stack check passes or the parent has nothing open. |
| Descriptors.ForkLeak | src/kernel/task.c:445-477 | A concrete fork after which closing the only descriptor no longer releases its entry. |
| Descriptors.CloseFromKeeps | src/kernel/task.c:336-346 | Exit closes all slots and keeps the counts. |
| Descriptors.RunKeeps | src/fs/fs.c:139-360 | In every state of every run the counts are the pointers and no entry in use points to a freed pipe. |
| Descriptors.Files.FsOpen | src/fs/fs.c:270-290 | In place, with the two searches. |
| Descriptors.Files.FsPipe | src/fs/fs.c:143-190 | In place. |
| Descriptors.Files.FsClose | src/fs/fs.c:327-342 | In place. |
| Descriptors.Files.FsDup2 | src/fs/fs.c:344-360 | In place. |
| Descriptors.Files.TaskFork | src/kernel/task.c:445-477 | The counting loop, then the check. |
| Descriptors.Files.CloseAll | src/kernel/task.c:341-346 | The closing loop of exit. |
| Paths.NormalShape | src/fs/fs.c:195-249 | The result is absolute, has no empty, "." or ".." component, and no trailing slash but at the root. |
| Paths.Idempotent | src/fs/fs.c:195-249 | Normalising twice is normalising once. |
| Paths.ResolveMeans | src/fs/fs.c:196-204 | A relative path is folded onto the components of the current directory, an absolute one onto the root. |
| Paths.RenderSplits | src/fs/fs.c:206-248 | Splitting a rendered stack of clean components gives the stack back. |
| Paths.StepMeans | src/fs/fs.c:227-239 | Behind any path: a clean name becomes the last component, "." adds nothing, ".." takes the name back. |
| Paths.DotsMean | src/fs/fs.c:227-239 | On normal paths ".." leaves the parent, at the root the root. |
| Paths.Normalize | src/fs/fs.c:206-248 | The in-place buffer with backtracking holds the rendered stack; every index stays in range. |
| Paths.ResolvePath | src/fs/fs.c:195-249 | The whole resolution. |
| Paths.PopToken | src/fs/fs.c:230-234 | Stepping back over the last component leaves the rest of the stack. |
| Paths.MatchesIff | src/fs/fs.c:31-36 | On normal paths the byte test holds exactly when the mount's components are the first components of the path. |
| Paths.RelativeIs | src/fs/fs.c:44-48 | The relative path names the components below the mount. |
| Paths.GetDriver | src/fs/fs.c:25-52 | The matching mount with the longest prefix is chosen, the first of equals; none exactly when none matches. |
| Rounds.CanTickIff | src/kernel/task.c:294-297 | The selection loop ends if and only if some task is runnable after the tick. |
| Rounds.Fair | src/kernel/task.c:278-302 | While no task is created, a task that stays runnable is selected within as many selections as its distance in the ring. |
| Rounds.StepCloser | src/kernel/task.c:278-302 | Every selection brings such a task nearer or selects it; exits and sleeps of others never push it back. |
| Rounds.IoSleeperWakes | src/kernel/task.c:282-288 | A task asleep on I/O without pending ticks is made ready by the very next tick. |
| Rounds.SleepLasts | src/kernel/task.c:282-287 | A sleeper with k ticks left sleeps through k - 1 ticks, one less each time, and is ready from the k-th on. |
| Rounds.TicksLeave | src/kernel/task.c:282-287 | Any number of ticks leaves a task that waits for another task, or does not sleep, as it is. |
| Rounds.TickOf | src/kernel/task.c:278-298 | Every task of the ring has done its tick after a selection, wherever it then stands. |
| Rounds.ReleasedIff | src/kernel/task.c:409-412 | A sleeper is ready after a wakeup exactly if it waits for that object or task, and its wait is cleared. |
| Rounds.AwakeReleased | src/kernel/task.c:409-412 | A task that does not sleep is not touched by a wakeup. |
| Scheduler.Scheduler.TimerHandler | src/kernel/task.c:278-302 | In the linked ring: every sleeper counts down, the first runnable task behind the current one is selected, the ring stays one cycle. |
| Scheduler.Scheduler.Insert | src/kernel/task.c:91-96 | Creation keeps one cycle through every task, with the new task in front of the queue's head. |
| Scheduler.Scheduler.Exit | src/kernel/task.c:336-367 | Exit takes exactly the current task out of the cycle and releases exactly the tasks that wait for it; the rest keeps its order. |
| Scheduler.Scheduler.WakeAll | src/kernel/task.c:404-416 | Exactly the tasks that wait for the object (or for the exiting task) become ready. |
| Scheduler.Scheduler.SleepOnIo | src/kernel/task.c:396-402 | Only the current task changes. |
| Scheduler.Scheduler.Sleep | src/kernel/task.c:319-330 | Only the current task changes; at least one tick. |
| Sha256.BlocksNext | src/lib/crypto.c:67-78 | The fold over blocks continues over one more block. |
| Sha256.PadBlocks | src/lib/crypto.c:80-103 | The one or two blocks that the final step builds are the padding of FIPS 180-4, section 5.1.1. |
| Sha256.LenDigits | src/lib/crypto.c:93-100 | The last eight bytes are the digits of the length in bits to base 256, the highest first. |
| Sha256Vector.AbcDigest | src/lib/crypto.c:13-112 | The message "abc" has the digest published in appendix B.1 of FIPS 180-2; its schedule and all 64 rounds are followed. |
| Sha256.FedFull | src/lib/crypto.c:72-76 | A full buffer moves one block from the tail into the state. |
| Sha256.Context.Schedule | src/lib/crypto.c:26-29 | The 64 words of the message schedule. |
| Sha256.Context.Transform | src/lib/crypto.c:24-52 | The round loop over eight variables is the compression function of section 6.2.2. |
| Sha256.Context.Update | src/lib/crypto.c:67-78 | Feeds bytes; the state always stands for exactly the bytes fed. |
| Sha256.Context.Final | src/lib/crypto.c:80-112 | The result is the hash of all bytes fed. |
| Sha256.HashChunks | src/lib/crypto.c:54-112 | However a message is cut into updates, the result is the hash of the whole. |
| Sha256.VerifiesOwnIff | src/lib/crypto.c:123-152 | A password verifies against its own stored hash if and only if the salt has no '$' and at most 31 characters. |
| Sha256.UnHexHex | src/lib/crypto.c:114-121 | The digits written read back, as 0 to 9 and a to f with the high half first, as the bytes. |
| Sha256.HexInjective | src/lib/crypto.c:114-121 | So different digests are written differently. |
| Sha256.VerifiesIff | src/lib/crypto.c:139-152 | For a salt without '$' of at most 31 characters a password is accepted exactly if it has the same digest as the one stored. |
| Sha256.StoredParts | src/lib/crypto.c:123-137 | The stored string is determined: salt, '$' and the hexadecimal digest. |
| Sha256.HashPassword | src/lib/crypto.c:123-137 | Salt, separator and hexadecimal hash. |
| Sha256.VerifyPassword | src/lib/crypto.c:139-152 | The comparison with the recomputed hash of the truncated salt. |
| Passwd.AtoiDecimal | src/lib/pwd.c:7-55 | Reading a printed number gives the number. |
| Passwd.ParsePrint | src/lib/pwd.c:25-63 | Parsing a printed record gives the record. |
| Passwd.ParseColumns | src/lib/pwd.c:25-63 | Columns joined with ':' are read as name, password, uid, gid, directory and shell; fewer than six are no record. |
| Passwd.PrintColumns | src/lib/pwd.c:204-212 | A record is printed as these six columns. |
| Passwd.DecimalDigits | src/lib/pwd.c:7-23 | The last digit printed is that of n % 10, the others print n / 10. |
| Passwd.RewriteKeepsRecords | src/lib/pwd.c:177-238 | The rewritten file parses to the same records in the same order, only the named ones with the new password. |
| Passwd.RewriteLookup | src/lib/pwd.c:103-238 | getpwnam then gives the new hash for that name and the old record for every other name. |
| Passwd.IntToStr | src/lib/pwd.c:7-23 | The decimal digits, built in reverse. |
| Passwd.ParseLine | src/lib/pwd.c:25-63 | The buffer cut in place into tokens gives the fields of the line. |
| Passwd.UpdatePassword | src/lib/pwd.c:177-238 | The record-by-record loop writes the specified file. |
| Passwd.GetPwNam | src/lib/pwd.c:103-138 | The first record of that name. |

## Left out

- Hardware access, interrupts, the console, boot code and user programs: disks are arrays, disabled interrupts are the choice of atomic steps.
- ext2: path resolution, permission checks, listing, ownership changes and hard links; operations start from resolved inode numbers, and a new name is created below a directory.
- ext2: the write-back of superblock and descriptor table to disk; both are in-memory state, and the 16-bit group counts are unbounded numbers (they could only wrap after a double free).
- ext2: deletion of directories, and block maps behind double and triple indirect pointers, which the driver never follows.
- Ext2Ops.CreateDirKeeps: a failure after the block is allocated leaves inode and block taken, as in the code, so the claim for failures is weaker than for files.
- KernelHeap.Kernel.Kmalloc: takes sizes for which no 32-bit addition wraps; `Heap.PagesEnoughIff` says which these are. Mapping a claimed page again in the kernel directory rewrites an identical entry and is not modelled.
- KernelHeap.Kernel.Kfree: the pointer must be null or that of a block in use, as callers promise; the payload of the freed block itself is not claimed to stay.
- AddressSpaces.CloneAddressSpace: needs either no free page (null) or enough pages for the whole clone; the code does not check the allocations in between.
- Address spaces: program loading, `brk`, unmapping and page faults; reaping is modelled for the timer's loop, without the kernel stack page and the task record.
- FatDriver.Fat32.ReadFile: takes requests that end at or below 0xFFFFFE00 and do not wrap; `FatFiles.SkipsRightIff` and `FatFiles.ToReadRightIff` say why.
- FAT32: path lookup, allocation of directory slots, 8.3 name formatting, time stamps and listing; files start from a found directory entry, and the 8.3 form is an input of the name search.
- Pipes: `fs_seek` on a pipe, and preemption inside close after its wakeup.
- Descriptors: drivers' open and the path behind it are inputs of `fs_open`; reads, writes and seeks through descriptors do not change the tables.
- Scheduler: SIGINT delivery, task numbers beyond 32 bits, the reaping slot and register frames.
- Passwd: opening, unlinking and creating the file are assumed to succeed; `add_user`, `getpwuid` and the group file have the same shape. Fields must fit `struct passwd` and numbers an `int`, as the code assumes.
- Sha256: the hexadecimal output buffer is a sequence; `generate_salt` depends on the clock.
