# ARES OS in Dafny

A model of the core of ARES OS, a small x86_64 operating system written in C,
with proofs of what its parts promise. Each C component that updates its state
in place is a class with methods; every method is proved against a specification
on values, and what the component is for is proved about that specification over
all inputs or all runs. Check the whole project with
`dafny verify dfyconfig.toml`.

| files | what they model |
|---|---|
| `Options`, `Bytes`, `Bitmaps` | a value or none, little-endian words in byte blocks, single bits of words and bitmaps |
| `FsLayout`, `FsImage` | the on-disk format; the image of a disk as files and directories; who owns each block |
| `FsSteps`, `FsEdits`, `FsWrites`, `FsBirth`, `FsFacts` | what each kind of edit of the image keeps: gaining, rewriting and releasing blocks, new inodes, rollback, format |
| `FsPaths`, `FsSpec`, `FsLaws` | paths and what they name; the abstract file system, its operations and its runs; what a user of it relies on |
| `FileSystem` | the file system code itself, on a 4096-block disk |
| `Pmm`, `PageTables`, `Vmm` | the page allocator; four-level page tables and their walk; map, unmap, split and query |
| `Heap` | the kernel heap in its 4 MiB window, down to the header bytes |
| `Schedulers`, `RoundRobin` | the four policies as functions on waiting lines; round robin as a rotating ring |
| `ProcessTable`, `ProcessMachine`, `Processes`, `ProcessRuns` | process control blocks, linked queues, the process manager and its runs |
| `Calc` | the calculator's precedence-climbing parser and the layered grammar it implements |
| `EditorText`, `Editor` | the editor's text, cursor and window |
| `Keyboard` | the key ring shared by the interrupt handler and a reader |

The main results:

- File system. Over every run of format, mount, unmount, open, close, read,
  write and mkdir, a data block is in use exactly when one pointer of one
  allocated inode names it, and then exactly one does, and while mounted both
  cached bitmaps equal their blocks on disk. The bytes on disk refine a map from
  inodes to byte sequences and a tree of names. A path is its names with slashes
  between them, and resolves to the inode to which the names lead one by one from
  the root. A write changes the bytes from the descriptor's position on and no
  other; over every run, what was written through one descriptor stands in the file
  in order. Files that nobody writes to keep their contents, paths that resolve keep
  resolving to the same inode, and a failed mkdir changes no bitmap and no name.
- Memory. The reserved pages are those holding a byte of the four boot ranges, and
  no later allocation hands one of them out. A map changes the translation of the
  one page it names, to the address and the rights asked for as far as the upper
  tables grant them; a split of a
  2 MiB page changes no translation and no right of any address; unmap removes
  exactly the page that covered the address. One promise is false of the code:
  when the page lies in a 2 MiB page and no frame is left for the split,
  `vmm_map_page` returns true all the same and stores the entry into the first
  frame of the 2 MiB page. If that frame is no table nothing is mapped; if it is
  a page table, another page is remapped. There is an example of each. As long as
  the frame is no table of an upper level, the call meets its promise exactly when
  the entry asks for what the 2 MiB page already gives and agrees with the
  page-table entry it overwrites, if any; for an upper table the damage is confined
  to the addresses that go through the overwritten entry.
- Heap. Over every sequence of calls the blocks tile the window, used, free and
  header bytes add up, and a block in use that is neither freed nor resized keeps
  its place, its size and its bytes. A freed block reaches to the next block in use;
  freeing what was just allocated restores the list exactly when the block behind
  it was not free.
- Processes. Every run keeps each process on at most one line, ready and in a
  taken slot, the current process on none, the count right and live pids distinct
  below 2^32 creations. The priority and the multilevel policy cannot be told
  apart by what they pick. Under round robin the process at position k of the
  queue becomes the kernel's current process within k + 1 yields of every run that
  does not kill it, and within 3(k + 1) ticks if no idle process is ahead of it;
  on ticks alone that condition is exact. A process that starts with a fresh quantum
  keeps the processor for exactly the ticks its policy and level grant.
- Calculator. Precedence climbing equals the layered grammar, which names the
  operators of each layer, on every token sequence, and parsing undoes printing. No token sequence read as a tree opens
  fewer brackets around operands than the printed tree does. (The brackets of a
  function call, and closing brackets at the end, are optional in this parser, and
  the printed form writes them.)
- Editor and keyboard. The window always shows the cursor and starts with a line;
  under every interleaving the ring keeps each key unless 255 are pending and
  delivers those kept in order.

Modelling choices. A machine word is a natural number with its width written
out; bit operations are arithmetic on it. The disk, the two bitmaps, the
descriptor table, physical memory and the process table are sequence-valued
fields that methods reassign; the page bitmap, the editor buffer and the key ring
are arrays. A pointer to a process is the number of its slot, a pointer to a
heap block or a page table is its address or frame. Values the code keeps
implicitly (who owns a block, which lines the queues spell, how many processes
were ever created) are ghost fields tied to the real ones by `Valid`. Disk reads
and writes succeed when a disk is present, as the model has no failing hardware.
Where the files under `docs/` describe another design than the code (block sizes,
scheduler bands, heap links), the model follows the code.

## Model

| member | source | states |
|---|---|---|
| Bitmaps.BitIsShiftAndMask | fs/aresfs.c:91-93 | the recursive bit test is the shift-and-mask of the code |
| Bitmaps.BitInByte | fs/aresfs.c:91-93 | bit i of a bitmap is bit i mod 8, from the low end, of byte i div 8 |
| Bitmaps.BitAfter | fs/aresfs.c:95-101 | setting or clearing a bitmap bit changes that bit and no other |
| Bitmaps.ClearUndoesSet | fs/aresfs.c:95-101 | clearing a bit just set restores the bitmap byte for byte, the basis of exact rollback |
| Bitmaps.LowestBit | process/pcb.c:21-28 | the shifting loop ends at the lowest set bit |
| Bitmaps.XorBit | fs/aresfs.c:588-588 | each bit of the exclusive-or tells whether the two bits differ |
| FsLayout.ModeBits | fs/aresfs.h:57-61 | of the four type bits a regular file has only bit 15 and a directory only bit 14; new inodes carry the default permissions |
| FsLayout.InodeOffsets | fs/aresfs.c:153-166 | inode n lies at byte 2048 + 128 n of the disk, each field a little-endian word at its offset in the packed record |
| FsLayout.InodeRoundTrip | fs/aresfs.c:153-182 | writing one inode slot reads back that inode and leaves the other three slots of the block as they were |
| FsLayout.DirentRoundTrip | fs/aresfs.c:268-273 | writing one directory slot reads back the entry and leaves the other seven as they were |
| FsLayout.DirentOffsets | fs/aresfs.h:109-112 | an entry takes 60 bytes: the inode number, the name, a NUL; every other byte of the block stays |
| FsLayout.SealedChecksum | fs/aresfs.c:577-589 | a superblock carrying its own checksum passes the check, whatever its other fields |
| FsLayout.SealedAccepted | fs/aresfs.c:686-689 | with its checksum recomputed a superblock mounts exactly if it has the magic, the version and the block size |
| FsLayout.DamageDetected | fs/aresfs.c:577-589 | changing one word of a superblock that mounts makes mount refuse it exactly when the word is one of the ten fields or the checksum |
| FsLayout.FormatSuperblock | fs/aresfs.c:599-616 | all 128 words that format writes, the checksum as a number included |
| FsLayout.FormatSuperOk | fs/aresfs.c:599-616 | the superblock written by format is one that mount accepts |
| FsImage.FileBytes | fs/aresfs.c:193-237 | byte k of a file computed from the raw bytes of the disk: through the pointer at its byte address, direct or indirect, or zero in a hole |
| FsImage.UsedExactlyOnce | fs/aresfs.c:115-144 | given the ownership invariant, a block is named by exactly one pointer of one allocated inode if it is a data block in use, and by none otherwise |
| FsImage.DirMapAfterAdd | fs/aresfs.c:326-333 | filling an empty directory slot with a new name adds that one name to what lookups find and changes no other lookup |
| FsSteps.FileChanged | fs/aresfs.c:498-572 | an edit of one file leaves every other file and every directory as it was |
| FsSteps.OwnershipGains | fs/aresfs.c:193-237 | linking a free block into an empty slot keeps every used block named exactly once |
| FsSteps.OwnershipDrops | fs/aresfs.c:241-260 | releasing all the blocks of one inode keeps every used block named exactly once |
| FsEdits.GrowDirectFile | fs/aresfs.c:196-207 | filling a direct hole with a zeroed block changes no byte of any file |
| FsEdits.GrowIndirectFile | fs/aresfs.c:212-222 | adding an empty indirect block changes no byte of any file |
| FsEdits.GrowEntryFile | fs/aresfs.c:226-236 | filling a hole of the indirect block changes no byte of any file |
| FsEdits.SavedOk | fs/aresfs.c:168-182 | writing the in-memory inode back makes the table on disk current and changes no file and no directory |
| FsEdits.EntryAdded | fs/aresfs.c:337-386 | an added entry makes the directory's map gain one name and leaves every other directory and every file as it was |
| FsPaths.CutUndoesJoin | fs/aresfs.c:417-441 | cutting any names joined by any positive numbers of slashes gives the names back |
| FsPaths.JoinUndoesCut | fs/aresfs.c:417-441 | every byte string is its components joined by slashes |
| FsPaths.PathMeaning | fs/aresfs.c:417-441 | names joined by slashes resolve to an inode exactly when they lead to it node by node from inode 1 |
| FsPaths.SplitMeaning | fs/aresfs.c:445-489 | a path splits exactly when it has a name, no name is longer than 55 and all before the last lead to directories; then the leaf is the last name and the parent where the others lead |
| FsPaths.WalksAgree | fs/aresfs.c:417-489 | whenever a path splits into parent and leaf, resolving it is looking the leaf up in the parent, and the parent is a directory |
| FsPaths.WalkStable | fs/aresfs.c:417-441 | a path that resolves in a tree resolves to the same inode in every larger tree |
| FsPaths.NewPathResolves | fs/aresfs.c:445-489 | once the leaf is entered in the parent, the whole path resolves to the new inode |
| FsWrites.WrittenContents | fs/aresfs.c:534-572 | the block-wise result of a write is the old contents, zero-padded and overlaid with the bytes stored; no other file and no directory changes |
| FsWrites.WrittenTwice | fs/aresfs.c:545-567 | consecutive chunks compose to one write of their concatenation |
| FsWrites.TruncatedOk | fs/aresfs.c:241-260 | with exactly the file's own blocks released, the file is empty and nothing else changed |
| FsBirth.NewFileOk | fs/aresfs.c:741-753 | a new inode on disk adds one empty file under a number that was no file and no directory |
| FsBirth.NewDirOk | fs/aresfs.c:830-866 | a new directory holds itself and its parent and nothing else changes |
| FsBirth.UndoneOk | fs/aresfs.c:868-873 | giving back the inode and the block of a failed creation restores both bitmaps exactly, and every file and directory |
| FsBirth.FormattedOk | fs/aresfs.c:594-672 | a formatted disk satisfies the ownership invariant and holds no file and one directory, the root, naming itself twice |
| FsSpec.DescriptorsDenoteFiles | fs/aresfs.c:728-816 | over every run, every open descriptor denotes an existing regular file and the tree is well formed |
| FsSpec.TreeOnlyGrows | fs/aresfs.c:728-875 | over every run without a format, no directory and no entry ever disappears or changes |
| FsSpec.PathsStable | fs/aresfs.c:417-441 | over every run without a format, a path that resolves keeps resolving to the same inode |
| FsSpec.CreatedResolves | fs/aresfs.c:728-776 | when an open creates a file, its path resolves to the new inode, even if no descriptor was left |
| FsSpec.MadeDirResolves | fs/aresfs.c:821-875 | after a successful mkdir the path resolves to the new directory, whose dot entries lead to itself and to the parent |
| FsSpec.NonInterference | fs/aresfs.c:728-816 | over every run, a file keeps its contents unless it is written through its own descriptor, truncated by name, or the disk is formatted |
| FsSpec.WriteThenRead | fs/aresfs.c:785-816 | what a write stored reads back through any descriptor of the file positioned there |
| FsLaws.FlagBits | fs/aresfs.h:67-69 | create, truncate and append are bits 6, 9 and 10 of the flags |
| FsLaws.WriteLands | fs/aresfs.c:799-816 | a write of r bytes changes the file at the descriptor's position, or at the end with the append flag, in those r bytes and zero padding before them, moves that descriptor by r and touches nothing else; refusals change nothing |
| FsLaws.ConsecutiveWrites | fs/aresfs.c:799-816 | two writes in a row leave their concatenation at the first position, or at the end of the file with the append flag |
| FsLaws.SequentialWrites | fs/aresfs.c:799-816 | over every run whose other operations leave the file and the descriptor alone, what each write through it stored stands in the file in order and nothing else of the file changed |
| FsLaws.ReadReturns | fs/aresfs.c:785-797 | a read returns the bytes of the file from the position on, fewer than asked only at its end, and moves the position past them |
| FsLaws.ConsecutiveReads | fs/aresfs.c:785-797 | two reads in a row return what one read of both lengths returns |
| FsLaws.OpenYields | fs/aresfs.c:728-776 | the descriptor is the lowest free one, denotes the file the path resolves to and stands at 0, or at the end with the append flag; a resolved file is not opened only if all 16 are taken |
| FsLaws.OpenLeaves | fs/aresfs.c:728-776 | opening an existing file empties it exactly with the truncate flag; a directory, or a missing path without the create flag, is refused and nothing changes |
| FsLaws.CreateAdds | fs/aresfs.c:741-757 | a creation adds one empty file and one name in one directory |
| FsLaws.MkdirAdds | fs/aresfs.c:821-875 | a mkdir adds one directory holding two names, itself and its parent, and one name in the parent |
| FsLaws.MkdirRefused | fs/aresfs.c:821-875 | busy exactly when the path resolves, invalid exactly when it has no usable parent and leaf; no refusal changes anything |
| FsLaws.CloseFrees | fs/aresfs.c:778-783 | succeeds exactly on an open descriptor, which is then free; nothing else changes |
| FsLaws.FormatEmpties | fs/aresfs.c:594-672 | afterwards there is no file, one directory with its two dots and no open descriptor |
| FsLaws.DotsEverywhere | fs/aresfs.c:821-875 | over every run of a formatted disk each directory's dot leads to itself and its double dot to a directory that holds it, the root's to itself |
| FileSystemCode.FindFirstFree | fs/aresfs.c:105-110 | finds the lowest clear bit, or reports that all are set |
| FileSystemCode.FormatBlockMap | fs/aresfs.c:618-626 | the format loop reserves exactly the blocks below 133 |
| FileSystemCode.FileSystem.AllocBlock | fs/aresfs.c:115-121 | takes the lowest free block, writes the bitmap through, and fails only when every block is used |
| FileSystemCode.FileSystem.FreeBlock | fs/aresfs.c:123-128 | releases a used block and ignores block 0, blocks out of range and free blocks |
| FileSystemCode.FileSystem.AllocInode | fs/aresfs.c:130-136 | takes the lowest free inode number and fails only when all are taken |
| FileSystemCode.FileSystem.FreeInode | fs/aresfs.c:138-144 | releases a taken inode number and ignores every other argument |
| FileSystemCode.FileSystem.ResolveBlock | fs/aresfs.c:193-237 | returns the block of any logical index, with creation fills holes without changing a byte of any file, and fails to create only on a full disk |
| FileSystemCode.FileSystem.ReadBody | fs/aresfs.c:498-532 | returns exactly the requested slice of the file's contents across direct blocks, indirect blocks and holes |
| FileSystemCode.FileSystem.WriteBody | fs/aresfs.c:534-572 | the file becomes its old contents overlaid at the position with the bytes stored; fewer than asked and possible are stored only on a full disk |
| FileSystemCode.FileSystem.TruncateInode | fs/aresfs.c:241-260 | clears the bits of exactly the blocks the file owned, its indirect block included |
| FileSystemCode.FileSystem.DirFindEntry | fs/aresfs.c:326-333 | returns the inode the directory's map gives the name, 0 if there is none or it is no directory |
| FileSystemCode.FileSystem.DirAddEntry | fs/aresfs.c:337-386 | adds one entry, in an empty slot or a new block; busy exactly when the name exists, and out of memory only when slots and blocks are gone; failure changes nothing |
| FileSystemCode.FileSystem.LookupPath | fs/aresfs.c:417-441 | the loop computes the resolution of every path in the abstract tree |
| FileSystemCode.FileSystem.SplitParentLeaf | fs/aresfs.c:445-489 | succeeds exactly when the path has a leaf of legal length in an existing directory, and returns both |
| FileSystemCode.FileSystem.constructor | fs/aresfs.c:27-42 | an unmounted file system on any disk contents |
| FileSystemCode.FileSystem.Format | fs/aresfs.c:594-672 | makes the empty file system out of any disk and mounts it |
| FileSystemCode.FileSystem.Mount | fs/aresfs.c:677-699 | succeeds exactly on an accepted superblock, loads both bitmaps and clears the descriptors; a rejected superblock has replaced the cached one, and nothing else has changed; without a device nothing changes |
| FileSystemCode.FileSystem.Unmount | fs/aresfs.c:701-716 | leaves bitmaps, inodes and data on disk unchanged under a superblock that mounts again |
| FileSystemCode.FileSystem.Remount | fs/aresfs.c:677-716 | from every mounted state, unmount then mount succeeds and restores both bitmaps, every inode, file and directory, with no descriptor open |
| FileSystemCode.FileSystem.Open | fs/aresfs.c:728-776 | opens, creates or truncates as the abstract open; a truncation releases exactly the blocks the file owned; a file fails to be created only for want of inodes or directory room |
| FileSystemCode.FileSystem.Close | fs/aresfs.c:778-783 | frees an open descriptor and rejects every other number |
| FileSystemCode.FileSystem.Read | fs/aresfs.c:785-797 | reads the slice of the abstract file at the descriptor's position and advances it; the disk is unchanged |
| FileSystemCode.FileSystem.Write | fs/aresfs.c:799-816 | is a write of the abstract file, as `WriteLands` describes it; stores less than asked and possible only on a full disk |
| FileSystemCode.FileSystem.Mkdir | fs/aresfs.c:821-875 | adds a directory as the abstract mkdir; any failure leaves both bitmaps, all files and all names as before |
| FileSystemCode.FileSystem.CreateFile | fs/aresfs.c:741-757 | a creation adds one empty file and one name, or rolls back both bitmaps exactly |
| FileSystemCode.FileSystem.CreateDir | fs/aresfs.c:830-874 | a directory creation adds one directory and one name, or rolls back both bitmaps exactly |
| FileSystemCode.FileSystem.ViewOk | fs/aresfs.c:728-875 | the abstract view of every valid concrete state is well formed |
| FileSystemCode.FileSystem.NoSharingNoLeak | fs/aresfs.c:193-260 | in every valid state a data block in use is named exactly once by the inodes on disk, and a free or reserved block never |
| FileSystemCode.FileSystem.Perform | fs/aresfs.c:594-875 | each operation keeps the invariant and is a step of the abstract file system |
| FileSystemCode.FileSystem.PerformAll | fs/aresfs.c:594-875 | every run of the code is a run of the abstract file system, so all the run theorems hold of it |
| Pmm.FreeAfter | memory/pmm.c:30-36 | the two bitmap updates add and remove exactly one page |
| Pmm.CarvedMeaning | memory/pmm.c:45-55 | a page is carved out exactly if it holds a byte of the range |
| Pmm.CarvedBackwards | memory/pmm.c:45-55 | an empty or reversed range carves out nothing, except the page of an unaligned end that is also the page of its start |
| Pmm.ReservationsMeaning | memory/pmm.c:78-89 | the reserved pages are those below the top that hold a byte of the four ranges |
| Pmm.PageAllocator.MarkRangeUsed | memory/pmm.c:45-55 | of a non-empty range, reserves in addition exactly the pages that hold one of its bytes, counting no page twice |
| Pmm.PageAllocator.Init | memory/pmm.c:60-90 | for every memory size, the free pages are those below the top that hold no byte of the four boot ranges |
| Pmm.PageAllocator.AllocPage | memory/pmm.c:92-114 | hands out the lowest free page, never page 0 and never a reserved one, and fails exactly when none is free |
| Pmm.PageAllocator.FreePage | memory/pmm.c:116-128 | takes back an outstanding page and ignores null, misaligned, out-of-range and free addresses; the accounting survives exactly when the page is not a reserved one |
| Pmm.PageAllocator.Serve | memory/pmm.c:92-128 | over every sequence of requests that releases no reserved page, no page handed out is reserved |
| Pmm.PageAllocator.BootAndServe | memory/pmm.c:60-128 | from boot on, no page ever handed out holds a byte of the four boot ranges |
| Pmm.PageAllocator.UsedCount | memory/pmm.c:134-137 | the subtraction of counters is the number of outstanding pages and never underflows |
| Pmm.PartitionSize | memory/pmm.c:130-137 | free, reserved and outstanding pages partition memory, so their numbers add up |
| PageTables.EntryBits | memory/vmm.c:7-13 | the flags are bits 0, 1, 2 and 7 of an entry and the frame its bits 12 to 51 |
| PageTables.Indices | memory/vmm.c:15-18 | the four indices are the nine-bit digits of the page number, highest table first |
| PageTables.SameIndices | memory/vmm.c:15-18 | two addresses are on the same page exactly when all four table indices agree, and in the same 2 MiB region exactly when the upper three do |
| PageTables.InstallKeeps | memory/vmm.c:57-76 | hanging an empty table into an absent entry changes no translation |
| PageTables.LeafChanges | memory/vmm.c:113-118 | writing a leaf entry changes the translation of exactly one page, to the new frame with the rights of the whole path |
| PageTables.DropChanges | memory/vmm.c:138-143 | clearing a 2 MiB entry unmaps exactly that region |
| PageTables.SplitKeeps | memory/vmm.c:196-235 | replacing a 2 MiB entry by a table of 512 entries keeps the address, the write right and the user right of every address |
| Vmm.PageMapper.Query | memory/vmm.c:153-186 | returns the address the table walk gives, 0 when the address is not mapped |
| Vmm.PageMapper.GetOrCreate | memory/vmm.c:57-76 | returns the table of an entry, or hangs in a fresh one without changing a translation; fails only without a free frame |
| Vmm.PageMapper.SplitLargePage | memory/vmm.c:196-235 | keeps every translation and every right, and leaves a 2 MiB page only when no frame is free |
| Vmm.PageMapper.MapPage | memory/vmm.c:85-119 | maps exactly the one page, to the physical address, with the rights asked for where the upper tables grant them, and leaves all others; upper entries on the path keep their rights and new ones grant writing, and user mode if asked for; failure changes no translation and means a misaligned address or no free frame; when the split finds no frame the call still reports success, and the promise is met exactly when the stray entry is harmless |
| Vmm.MappedAddress | memory/vmm.c:113-118 | a page mapped by an entry translates to the physical address asked for, with the rights of the entry as far as the upper tables grant them |
| Vmm.PageMapper.UnmapPage | memory/vmm.c:121-151 | succeeds exactly on a mapped address and removes exactly its 4 KiB page or the whole 2 MiB page |
| Vmm.StarvedExactly | memory/vmm.c:107-118 | after a split without a free frame, if the frame stored into is no table of an upper level, the page is mapped as asked and nothing else changes exactly when the entry asks for what the 2 MiB page already gives and agrees with the page-table entry it overwrites, if it overwrites one |
| Vmm.StarvedAnyTable | memory/vmm.c:107-118 | whatever table the frame is, addresses that do not go through the overwritten entry keep their translation; unless the address asked for goes through it, the promise is met exactly when the entry asks for what is given and the addresses through it keep theirs |
| Vmm.LeafOverwritten | memory/vmm.c:113-118 | when a page table is overwritten, the other page translates to the new entry, and keeps its translation exactly when the two entries agree |
| Vmm.StarvedExample | memory/vmm.c:107-118 | a table and a request for which success is reported and no translation changes |
| Vmm.StrayExample | memory/vmm.c:107-118 | a table and a request for which success is reported and an unmapped address elsewhere becomes mapped |
| Heap.HeaderRoundTrip | memory/heap.c:16-21 | a header written in memory reads back and disturbs no other header |
| Heap.HeaderInMemory | memory/heap.c:16-21 | at every block the memory words spell its size, the magic number, the address of the next block and the free flag |
| Heap.Conservation | memory/heap.c:122-140 | used, free and header bytes of any tiling add up to the window |
| Heap.LinkedSplit | memory/heap.c:64-76 | cutting a block in two keeps a linked tiling, in memory bytes |
| Heap.LinkedMerge | memory/heap.c:92-98 | swallowing the successor keeps a linked tiling, in memory bytes |
| Heap.TakenMeaning | memory/heap.c:64-79 | the block taken keeps its place and exceeds the rounded request by at most 48 bytes; more than that is cut off as one free block behind it, and all other blocks stay |
| Heap.FreedMeaning | memory/heap.c:84-99 | a freed block keeps its place and reaches to the first block in use behind it or to the end of the window; all blocks before it and from there on stay, so the next block is in use |
| Heap.FreeUndoesAlloc | memory/heap.c:55-99 | freeing what was just allocated restores the block list exactly when the block behind it was not free |
| Heap.TotalFlagged | memory/heap.c:122-140 | a block that becomes free counts as free bytes, no longer as used ones |
| Heap.AlwaysTiled | memory/heap.c:55-120 | over every sequence of allocations, frees and resizes the blocks tile the window and the byte counts add up |
| Heap.LivePayloadsKept | memory/heap.c:55-120 | over every sequence of calls a block in use that is neither freed nor resized stays in place, as large as it is, with the same bytes |
| Heap.PayloadsDisjoint | memory/heap.c:39-42 | payloads are 16-byte aligned and do not overlap |
| Heap.KernelHeap.Init | memory/heap.c:47-53 | one free block spans the window |
| Heap.KernelHeap.Kmalloc | memory/heap.c:55-82 | takes the first free block at least as large as the rounded size and fails exactly when there is none; the payload lies inside the window; every other payload keeps its bytes; the payload is as large as asked exactly when the rounded size does not wrap |
| Heap.KernelHeap.Kfree | memory/heap.c:84-99 | the block becomes free and reaches to the first block in use behind it or to the end of the window, and the blocks before it and from there on stay; every other live payload keeps its bytes; null, a free block and an address without a header are ignored |
| Heap.KernelHeap.Krealloc | memory/heap.c:101-120 | returns a payload of the new size starting with the old bytes and frees the old block, or keeps the block when it is large enough; failure and an address without a header change nothing; all other live payloads keep their bytes |
| Heap.KernelHeap.Stats | memory/heap.c:122-140 | the three totals are those of the block list and account for the whole window |
| Heap.KernelHeap.Perform | memory/heap.c:55-120 | each call acts on the block list as its request, spares every block it does not name, and hands out only the payload of a block in use as large as asked |
| Heap.KernelHeap.PerformAll | memory/heap.c:55-120 | every sequence of calls acts on the heap as its requests on the list, with a tiled window after each call and all blocks spared that no call names |
| Schedulers.TakesBest | scheduler/priority.c:39-50 | under every policy, taking the next process takes the earliest arrival of the highest rank out of the arrival order |
| Schedulers.TakesHighest | scheduler/priority.c:24-50 | by plain numbers: first come first served and round robin take the oldest; the other two take the oldest of the highest priority, all from 3 on alike |
| Schedulers.LinesDrop | scheduler/mlq.c:41-48 | removing a process from the lines is removing it from the arrival order |
| Schedulers.AlwaysBest | scheduler/mlq.c:36-62 | over every run of add, remove and next each of the four policies hands out the earliest arrival of the highest clamped priority |
| Schedulers.SameSchedule | scheduler/priority.c:24-50 | over every common run the priority and the multilevel policy hand out the same processes in the same order |
| RoundRobin.Closer | process/process.c:179-202 | one event dispatches a waiting job or leaves it no further back, one nearer on a yield |
| RoundRobin.WithinYields | scheduler/rr.c:21-36 | a job at position k runs within k + 1 yields whatever is created, killed or exits meanwhile |
| RoundRobin.WithinTicks | scheduler/rr.c:38-49 | with no idle process ahead it runs within 3(k + 1) timer ticks |
| RoundRobin.TicksExactly | scheduler/rr.c:38-49 | with no idle process ahead, after n ticks the job at place n div 3 runs and has used n mod 3 ticks |
| RoundRobin.IdleBlocks | scheduler/rr.c:40-48 | with the idle process current or ahead, no number of ticks dispatches the job |
| RoundRobin.TicksDecide | scheduler/rr.c:38-49 | on enough ticks alone the job is dispatched exactly when no idle process is current or ahead |
| ProcessTable.PushSpells | process/queue.c:10-19 | pushing keeps head, tail, count and links spelling the old line with the process at its end |
| ProcessTable.CutSpells | process/queue.c:31-46 | unlinking at any place keeps them spelling the line without that process |
| ProcessMachine.Joined | scheduler/mlq.c:36-39 | a ready process joining its line keeps the machine invariant |
| ProcessMachine.Parted | scheduler/mlq.c:41-48 | a process leaving its line keeps the invariant and then waits nowhere |
| ProcessMachine.Born | process/process.c:52-60 | a new process keeps the invariant, live pids distinct below 2^32 creations included |
| ProcessMachine.Died | process/process.c:107-109 | a dying process keeps the invariant, with the count of live processes |
| Processes.Kernel.constructor | process/process.c:19-35 | after boot the only live process is the idle one, with pid 1 in slot 0 and on no line |
| Processes.Kernel.QueuePush | process/queue.c:10-19 | appends to the line the queue spells and relinks its members only |
| Processes.Kernel.QueuePop | process/queue.c:21-29 | takes the first of the line, or nothing from an empty one |
| Processes.Kernel.QueueRemove | process/queue.c:31-46 | removes the process from the line, and changes nothing when it is absent |
| Processes.Kernel.QueueContains | process/queue.c:52-59 | tells whether the process is on the line |
| Processes.Kernel.SchedulerAdd | scheduler/scheduler.c:28-31 | the process ends up last on the line its priority selects under the policy |
| Processes.Kernel.SchedulerNext | scheduler/scheduler.c:38-42 | takes the process the policy picks and resets the quantum; nothing when nobody waits |
| Processes.Kernel.SchedulerRemove | scheduler/scheduler.c:33-36 | the process waits nowhere afterwards and every line keeps its order |
| Processes.Kernel.SchedulerSet | scheduler/scheduler.c:10-21 | a valid number restarts that policy with empty lines, any other number changes nothing |
| Processes.Kernel.SchedulerTick | scheduler/scheduler.c:44-47 | charges the tick to the level of the running process unless it is idle, and asks for rescheduling exactly when the quantum is used up |
| Processes.QuantumExactly | scheduler/mlq.c:64-75 | from fresh counters, ticks change nothing but the counter until the grant of policy and level (3, or 2, 4, 6 and 8) is used up, and exactly then the process yields |
| Processes.NoQuantum | scheduler/fcfs.c:38-46 | under first come first served, or with the idle process running, no number of ticks changes anything |
| Processes.Kernel.PcbAlloc | process/pcb.c:38-56 | takes the lowest slot without a live process and fails exactly when all 64 are live |
| Processes.Kernel.PcbFree | process/pcb.c:58-64 | terminates the process of a slot and frees the slot, keeping the machine invariant for a dead process; null and pointers outside the table are ignored |
| Processes.Kernel.PcbByPid | process/pcb.c:66-74 | finds the first live process with the pid, or tells there is none |
| Processes.Kernel.EnumActive | process/pcb.c:76-85 | lists the live slots in ascending order up to the limit, leaving none out below the last |
| Processes.Kernel.Create | process/process.c:45-98 | a new process gets the lowest free slot, the next pid and the end of its line; fails exactly when 64 live; nobody else changes |
| Processes.Kernel.Exit | process/process.c:100-124 | the current process dies and the policy's pick runs; halts exactly when nobody waits |
| Processes.Kernel.Kill | process/process.c:132-150 | fails exactly for pid 1 and unknown pids, changing nothing; otherwise exactly the first live process with that pid dies and leaves its line |
| Processes.Kernel.Yield | process/process.c:179-202 | the policy picks with the current process back at the end of its line; nobody is born, dies or changes identity |
| Processes.Kernel.Interrupt | kernel/arch/x86_64/interrupt_stubs.asm:117-127 | a tick charges the running process and makes it yield exactly when its quantum is used up; between interrupts every counter is below its quantum |
| Processes.Kernel.Adopt | kernel/kernel.c:234-234 | making a live process that waits nowhere the current one keeps the invariant |
| Processes.Kernel.SwitchAway | process/process.c:179-202 | the yield itself, from any state of the quantum counters |
| ProcessRuns.Perform | process/process.c:45-202 | each operation keeps the machine invariant and under round robin is at most one event of the ring |
| ProcessRuns.PerformAll | process/process.c:45-202 | every run keeps the machine invariant; the state after each operation is returned, and under round robin each follows from the one before by at most one event of the ring, a yield or tick for a yield or tick and a removal only for a kill |
| ProcessRuns.EveryMoment | process/process.c:45-202 | every moment of the ring is the kernel's state after some operation of the run |
| ProcessRuns.NoStarvation | scheduler/rr.c:21-49 | in every run that does not kill it, the process at position i of the queue is, with its pid, the kernel's current process after some operation, given i + 1 yields, or 3(i + 1) ticks with no idle process ahead |
| Calc.Stages | calc/calc.c:260-272 | the climbing loop at one strength is the loop at the next strength followed by itself |
| Calc.Layers | calc/calc.c:236-246 | the three strengths are those of plus and minus, of times, divided by and remainder, and of power |
| Calc.Agree | calc/calc.c:154-203 | on every token sequence, well-formed or not, climbing and the layered left-folding grammar give the same tree and the same rest |
| Calc.ThreeNumbers | calc/calc.c:260-272 | between three numbers the second operator is done first exactly when it is in a tighter layer; all operators, power included, go left to right otherwise |
| Calc.SignFirst | calc/calc.c:193-196 | a sign binds tighter than any operator, power included |
| Calc.PrintRule | calc/calc.c:260-272 | a printed operand is bracketed exactly when its operator is looser, or on the right not tighter, by the layers of the tokens |
| Calc.PrintThenParse | calc/calc.c:260-272 | parsing the printed form of any tree returns the tree and consumes everything |
| Calc.FewestBrackets | calc/calc.c:154-203 | no token sequence, well-formed or not, that is read as a tree opens fewer brackets around operands than the printed tree |
| Calc.ParenthesesNeeded | calc/calc.c:236-246 | so no bracket around an operand of the printed tree can be dropped: with fewer the tokens are read as something else |
| Calc.Parser.ParsePrimary | calc/calc.c:154-203 | the code returns the tree and the position the specification gives, and ends on every input |
| Calc.Parser.ParseExpr | calc/calc.c:260-272 | the climbing loop returns the tree and the position the specification gives, and ends on every input |
| EditorText.UpUndoesDown | editor/editor.c:301-323 | down then up returns to the same place exactly when the lower line is long enough |
| EditorText.DownReaches | editor/editor.c:310-319 | the down key reaches the next line exactly when that line is not the empty end of the text |
| EditorText.BackspaceUndoesType | editor/editor.c:273-291 | a backspace undoes a typed character |
| EditorText.LeftRight | editor/editor.c:293-299 | left and right undo each other, stop at the ends and change no text |
| EditorText.TypeAdds | editor/editor.c:273-283 | a typed character stands at the old cursor with the rest behind it, a tab is two blanks, and a full buffer refuses both |
| EditorText.LandsOnLine | editor/editor.c:301-323 | up and down land on the line above or below, in the same column or at its end if it is shorter |
| EditorText.OneLineLess | editor/editor.c:263-266 | moving the window one line down leaves one newline fewer before the cursor |
| EditorBuffer.Editor.constructor | editor/editor.c:329-350 | opens on the first 8191 bytes with the cursor and the window at the start |
| EditorBuffer.Editor.MemMove | editor/editor.c:52-59 | the overlapping move in either direction equals the copy of the old bytes |
| EditorBuffer.Editor.LineStartAt | editor/editor.c:139-142 | finds the start of the line |
| EditorBuffer.Editor.LineEndAt | editor/editor.c:144-147 | finds the end of the line |
| EditorBuffer.Editor.PrevLineAt | editor/editor.c:149-153 | finds the start of the line before |
| EditorBuffer.Editor.NextLineAt | editor/editor.c:155-159 | finds the start of the line after, or the end of the text |
| EditorBuffer.Editor.ScreenRow | editor/editor.c:167-177 | counts the newlines from the window to the offset, capped at 24 |
| EditorBuffer.Editor.ScrollIntoView | editor/editor.c:259-267 | both loops end with the cursor in the window; a window that shows it stays, and one that moves down moves no further than needed |
| EditorBuffer.Editor.InsertChar | editor/editor.c:273-283 | the text in the buffer is the old text with the character inserted at the cursor; a full buffer is unchanged |
| EditorBuffer.Editor.DeleteBefore | editor/editor.c:285-291 | the text in the buffer is the old text without the character before the cursor |
| EditorBuffer.Editor.MoveUp | editor/editor.c:301-308 | goes to the same column of the line above or to its end |
| EditorBuffer.Editor.MoveDown | editor/editor.c:310-323 | goes to the same column of the line below or to its end |
| EditorBuffer.Editor.Press | editor/editor.c:481-491 | after any key the text and cursor are as specified and the cursor is in a window of 24 lines that starts with a line |
| EditorBuffer.Editor.PressAll | editor/editor.c:456-492 | the same after any keys in any order |
| Keyboard.Ring.constructor | drivers/keyboard.c:258-263 | an empty ring |
| Keyboard.Ring.Put | drivers/keyboard.c:161-169 | a key is accepted unless 255 are pending; the slot a reader is at is never overwritten |
| Keyboard.Ring.Step | drivers/keyboard.c:274-282 | one step of the reader, at any moment between interrupts |
| Keyboard.Ring.Run | drivers/keyboard.c:274-282 | under every interleaving of keys and reader steps, exactly the keys that come while fewer than 255 are pending are accepted, and those received are the first of them, in order |
| Keyboard.AllKept | drivers/keyboard.c:161-169 | over every interleaving all keys are accepted exactly when none comes to a full ring |
| Keyboard.Ring.GetChar | drivers/keyboard.c:274-282 | uninterrupted, the three steps return the oldest pending key, or 0 from an empty ring |
| Keyboard.Ring.HasData | drivers/keyboard.c:284-287 | tells whether a key is pending |

## Left out

- Krealloc: requires of a live block that its bytes fit where they are copied, which fails only for a size above 2^64 - 16, whose rounding wraps; the code then writes past the new block.
- Kfree: of the addresses that are no block it covers those inside the window, aligned, with no header in front; forged headers and other addresses are not modelled.
- MapPage: when the split finds no frame and the first frame of the 2 MiB page is itself a table above the page tables, the store is named and `StarvedAnyTable` bounds it, but the contents of the frame asked for then decide the translations below it and no closed condition is given.
- Mount: follows the code on any disk, but the refinement to the abstract file system is stated for images made by format and the operations here.
- Failing disk reads and writes, the ATA driver, and null pointer arguments.
- `aresfs_listdir`, `aresfs_stat` and the unused `dir_remove_entry`: read-only listings and dead code, easy members.
- Inode time stamps, which the code always leaves at 0.
- 1 GiB pages, the no-execute bit, TLB invalidation and reading CR3.
- `context_switch`, stacks, names and statistics counters of processes, and boot order beyond the idle process.
- Switching to a benchmark by hand while another process runs (`benchmark/benchmark.c`).
- The calculator's tokenizer and its floating-point results: operators build trees.
- Loading and saving files in the editor, its command line and its drawing.
- Keyboard scancode tables and modifiers, console, shell, syscalls, RTC, authentication and the in-kernel tests.
