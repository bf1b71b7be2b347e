# Pintos indexed file system: a verified model

This project models the core of the Pintos file system extension: the
indexed inode layer (`inode.c`), the sector cache's read path
(`buffer.c`), the path tokenizer (`filesys.c`) and the per-process file
descriptor table (`syscall.c`). It also proves properties of the model.

An on-disk inode holds 123 direct block pointers, two singly indirect
index blocks of 128 entries each, and one doubly indirect index block.
A file of `length` bytes owns data blocks `0 .. length / 512`, so even an
empty file has one block. It also owns the index blocks those data blocks
need and the inode's own sector. The model keeps the disk as a map from
sector number to a typed block: data bytes, an index block's entries, or
an inode. It proves the following:

- **Block addressing.** Block indices and (tier, position) locations are
  a bijection below `MAX_BLOCKS`. `byte_to_sector_helper` reads the sector
  that this bijection names.
- **Creation.** `inode_create` builds the inode, its index blocks and its
  zero-filled data blocks. The file owns `SectorsNeeded` distinct sectors,
  all taken from the free map. Every block it owns reads back as zeros,
  including the part of the last block past the length. Nothing else on
  the disk changes.
- **Growth.** `inode_extend_length` keeps every byte of the old file and
  zeroes the new blocks. The file's footprint grows by exactly the sectors
  taken from the free map.
- **Writing.** `inode_write_at` writes `buffer` at `offset`, so the bytes
  read back through `byte_to_sector_helper` are the buffer. Every other
  byte below the old length stays as it was. Every other byte from the
  old length on reads as zero, so a write past the end leaves no hole.
  This rests on an invariant, `TailZero`: the rest of the last block past
  the length reads as zero. Creation establishes it and every write keeps
  it. The sectors the file owns stay distinct and disjoint from the free
  map.
- **Reading.** `inode_read_at` returns exactly the file's bytes, clipped
  at the end of the file.
- **Closing.** The last `inode_close` of a removed inode returns the
  inode's sector and its whole footprint to the free map.
- **Open inodes.** `inode_open`, `inode_reopen` and `inode_close` keep the
  list of open inodes free of duplicate sectors.
- **Writer counts.** `inode_deny_write` and `inode_allow_write` keep
  `deny_write_cnt <= open_cnt`.
- **Sector cache.** The model follows the corrected `buffer_read` (see
  Findings). It keeps the cache coherent: its LRU order is a permutation
  of the slots, and no sector is cached twice. Every valid slot holds
  what the device holds, so a read returns the device's bytes. A hit is
  served from its slot. A miss refills the first invalid slot, or the
  least recently used slot when all 64 are valid.
- **Path tokenizer.** `get_next_part` returns 0 when only slashes are left
  and -1 for an over-long name. Otherwise it copies the component and
  advances the cursor past it, returning 0 for the last component and 1
  when more follows.
- **File descriptors.** The corrected `find_free_fd` (see Findings) hands
  out the lowest free descriptor and keeps the table ascending. As
  written, it can break the order and reuse a descriptor. `get_file_pair`
  finds the first pair holding a descriptor.

Modules, one per file:

| module | file | models |
|---|---|---|
| `BlockDevice` | device.dfy | bytes, sectors, the 512-byte sector size |
| `InodeLayout` | layout.dfy | tier arithmetic of the indexed inode, `MAX_LEN` |
| `DiskFormat` | diskformat.dfy | the disk map, `byte_to_sector_helper`, file bytes, what `inode_create` leaves |
| `Growth` | growth.dfy | ownership invariant of a file, what `inode_extend_length` leaves |
| `Writing` | writing.dfy | the write loop of `inode_write_at` and what the whole write leaves |
| `Inodes` | inode.dfy | the in-memory inode (`Inode`) and the inode layer over disk and free map (`FileSystem`) |
| `SectorCache` | buffer.dfy | the 64-slot sector cache and `buffer_init` / `buffer_read` |
| `PathParser` | path.dfy | `get_next_part` |
| `FdTable` | fdtable.dfy | the per-process `fd_pair` list, `find_free_fd`, `get_file_pair` |

The free map is modelled as the set of free sectors. An allocation takes
some member of that set, and which one is left open. When the set is
empty, the caller's pointer keeps its previous value, as with
`free_map_allocate`.

Several methods take a ghost flag `good`. Their layout contracts hold
under that flag, because `inode_create` and `inode_extend_length` do not
check whether an allocation failed. The flag means one of two things:

- In the create path (`Create`, `CreateIndex`, `AllocSingles`,
  `AllocDouble`, `AllocSeconds`, `CreateData`), it says the inode's
  sector was not free and the free map has room for every new sector.
- In the extend and write path (`ExtendLength`, `ExtendFile`,
  `ExtendIndex` and the methods it calls, `WriteAt`, `WriteTail`,
  `WriteFile`, `WriteChunks`), it is `Growable` (growth.dfy). That means
  the file owns its sectors alone (`Consistent`: inode, index and data
  sectors pairwise distinct and none free), and the free map has room
  for the sectors the growth needs. In `WriteTail` and `WriteFile` the
  flag also includes `TailZero` of the file before the write.

## Model

| member | source | states |
|---|---|---|
| InodeLayout.LocateRoundTrip | pintos/src/filesys/inode.c:62-102 | A block index maps to a direct, singly indirect or doubly indirect position. That position is valid exactly when the index is below `MAX_BLOCKS`, and it maps back to the same index. |
| InodeLayout.IndexOfRoundTrip | pintos/src/filesys/inode.c:62-102 | Every valid (tier, position) location is the location of exactly one block index below `MAX_BLOCKS`. |
| InodeLayout.OuterInner | pintos/src/filesys/inode.c:90-95 | A doubly indirect block index splits into an outer entry and an inner entry below 128, as `index / 128` and `index % 128` after the first 379 blocks. |
| InodeLayout.NextInner | pintos/src/filesys/inode.c:187-199 | From one doubly indirect block to the next, the inner position advances. At position 127 it wraps to 0 of the next outer entry. The create and extend loops depend on this when they flush a second-level page. |
| InodeLayout.SectorsNeededMonotone | pintos/src/filesys/inode.c:145-199 | More blocks never need fewer index or total sectors. Growing from `a` to `b` blocks needs exactly the new data blocks plus the new index blocks. |
| InodeLayout.AsWrittenAdmitsUnaddressable | pintos/src/filesys/inode.c:127 | The size guard as written lets `length == MAX_LEN` through. Its last block lies at outer entry 128 of a 128-entry doubly indirect block, which has no such entry. |
| InodeLayout.AdmittedIsAddressable | pintos/src/filesys/inode.c:437 | With the corrected guard `length < MAX_LEN`, every block a file of that length owns has a valid location. |
| InodeLayout.GuardsDifferOnlyAtMax | pintos/src/filesys/inode.c:14 | The guard as written and the corrected guard disagree on exactly one length, `MAX_LEN`. |
| DiskFormat.ByteToSector | pintos/src/filesys/inode.c:62-102 | A position at or past `len` gives the `-1` sector. Any other position gives the sector in the slot named by the location of block `pos / 512`: a direct pointer, an entry of a singly indirect page, or an entry of a second-level page of the doubly indirect block. |
| DiskFormat.SectorPiece | pintos/src/filesys/inode.c:396-412 | The bytes a chunk takes from one sector are the file's bytes at those positions. |
| DiskFormat.ReadChunk | pintos/src/filesys/inode.c:396-412 | Appending one chunk keeps the buffer equal to the file's bytes from `offset` on. |
| DiskFormat.CreateDone | pintos/src/filesys/inode.c:133-221 | After the index blocks, the data loop and the final writes, the file is created. Its inode holds `length` and the magic number. Its footprint is `SectorsNeeded` distinct sectors taken from the free map, not including the inode's own sector. Every byte of every block the file owns is zero, past the length up to the end of the last block too. Every other sector is unchanged. |
| Growth.CreatedConsistent | pintos/src/filesys/inode.c:121-225 | A created file owns its sectors alone: inode, index and data sectors are pairwise distinct and none is free. The rest of its last block past the length reads as zero (`TailZero`), so the file meets what a write asks of it. |
| Growth.ExtendDone | pintos/src/filesys/inode.c:478-583 | After the extension loop, the file has grown: it is still consistent; every byte of its old blocks is kept and every byte of its new blocks is zero; its footprint is the old one plus exactly the sectors taken from the free map, `SectorsNeeded(new) - SectorsNeeded(old)` of them; and only the inode, index and newly taken sectors changed. |
| Writing.WrittenStep | pintos/src/filesys/inode.c:444-465 | One loop turn of the write copies the chunk into its sector. The bytes written so far read back as the buffer's prefix, and every other byte of the file is unchanged. |
| Writing.ChunkStep | pintos/src/filesys/inode.c:447-459 | The chunk at `offset + done` is written into the sector `byte_to_sector_helper` names, at `pos % 512`. That advances the written prefix by the chunk. |
| Writing.MetaKept | pintos/src/filesys/inode.c:466-470 | Rewriting the inode with a new length keeps the file consistent, keeps its footprint, and keeps every byte of its blocks. |
| Writing.WroteDone | pintos/src/filesys/inode.c:426-474 | A grown file whose buffer has been written in full, and whose old last block was zero past the old length, meets the write's promise. The buffer reads back at `offset`. Every other byte below the old length is the old one, and every other byte from the old length on is zero, so no hole is left. The rest of the new last block past the new length is zero. The footprint is the old one plus the newly taken sectors, and the file still owns its sectors alone. |
| Inodes.Inode.constructor | pintos/src/filesys/inode.c:256-264 | A freshly opened inode has one opener, no write denials, is not removed, and carries the on-disk inode it read. |
| Inodes.Inode.Length | pintos/src/filesys/inode.c:608-614 | The length is the on-disk length, which is always below `MAX_LEN`. |
| Inodes.Inode.Remove | pintos/src/filesys/inode.c:377-381 | Marks the inode removed and changes nothing else. |
| Inodes.Inode.DenyWrite | pintos/src/filesys/inode.c:589-593 | Adds one write denial, keeping `denyWriteCnt <= openCnt`. |
| Inodes.Inode.AllowWrite | pintos/src/filesys/inode.c:599-604 | Removes one write denial, keeping `denyWriteCnt <= openCnt`. |
| Inodes.FileSystem.Open | pintos/src/filesys/inode.c:231-266 | If the sector is already open, returns that inode with one more opener. Otherwise returns `NULL` when memory runs out, or a fresh inode read from the sector, pushed at the front of the open list. The disk and free map are untouched and the open list stays duplicate-free. |
| Inodes.FileSystem.Reopen | pintos/src/filesys/inode.c:270-275 | Returns its argument. A non-null inode gains one opener and nothing else changes. |
| Inodes.FileSystem.Close | pintos/src/filesys/inode.c:288-372 | `NULL` is a no-op. Otherwise the inode loses one opener. The last close unlinks it from the open list, and if the inode was removed, frees its sector and its whole footprint. The disk itself is untouched. |
| Inodes.FileSystem.Unregister | pintos/src/filesys/inode.c:298 | Unlinks the inode from the open list, keeping the other open inodes in order. |
| Inodes.FileSystem.ReleaseTop | pintos/src/filesys/inode.c:305-331 | Frees the inode's sector and the index blocks in use, after reading their tables. |
| Inodes.FileSystem.ReleaseBlock | pintos/src/filesys/inode.c:337-361 | Frees data block `i`, and its second-level block when `i` ends a group or is the last block. It keeps the current second-level table for the next turn. |
| Inodes.FileSystem.ReleaseAll | pintos/src/filesys/inode.c:300-366 | The release loop over a removed file returns exactly the inode's sector and the file's footprint to the free map. |
| Inodes.FileSystem.ReleaseStep | pintos/src/filesys/inode.c:336-362 | One turn of the release loop frees block `i` and every index page it finishes. |
| Inodes.FileSystem.AllocInto | pintos/src/filesys/inode.c:150 | Takes one free sector into the pointer. When the map is full, the pointer keeps its value and the map is unchanged. |
| Inodes.FileSystem.AllocSingles | pintos/src/filesys/inode.c:147-157 | Allocates the first singly indirect block once the file reaches block 123, and the second once it reaches block 251. Under `good`, they are distinct sectors taken from the free map. |
| Inodes.FileSystem.AllocSeconds | pintos/src/filesys/inode.c:164-166 | Allocates second-level blocks `0..outer` into the doubly indirect table. Under `good`, they are distinct, taken from the free map, and recorded in the table in order. |
| Inodes.FileSystem.AllocDouble | pintos/src/filesys/inode.c:158-168 | Allocates the doubly indirect block and its second-level blocks, and writes the table to the doubly indirect block, changing nothing else on disk. Under `good`, all of them are distinct sectors taken from the free map. |
| Inodes.FileSystem.CreateIndex | pintos/src/filesys/inode.c:133-168 | The new inode has `length`, the magic number and zeroed direct pointers. Only the doubly indirect block's first level is written. The index sectors it names were taken from the free map, and their number is `IndexBlocks(index)`. |
| Inodes.FileSystem.CreateStep | pintos/src/filesys/inode.c:170-199 | One turn of the data loop allocates block `i`, zeroes it, and places its pointer in the tier `Locate(i)` names, flushing a finished page. |
| Inodes.FileSystem.CreateData | pintos/src/filesys/inode.c:169-200 | The data loop places every block `0..index` as fresh zeroed sectors taken from the free map. |
| Inodes.FileSystem.Create | pintos/src/filesys/inode.c:121-225 | Succeeds exactly when memory is available and the length passes the corrected guard. On failure nothing changes. On success with a non-free inode sector and room in the free map, the file is created as `CreateDone` states. |
| Inodes.FileSystem.WriteInode | pintos/src/filesys/inode.c:207-221 | Writes the singly indirect pages and the inode back, exactly as the tables say. |
| Inodes.FileSystem.AllocTop | pintos/src/filesys/inode.c:497-507 | One index allocation of the extension. The new sector joins the file's index sectors. The file's sectors stay pairwise distinct and apart from the free map, and they are the old ones plus exactly those taken. |
| Inodes.FileSystem.ExtendSingles | pintos/src/filesys/inode.c:495-503 | A singly indirect block is allocated only when the growth first reaches its range. Otherwise the old pointer is kept. The sector bookkeeping is the same as for `AllocTop`. |
| Inodes.FileSystem.ExtendSeconds | pintos/src/filesys/inode.c:520-522 | Allocates the second-level blocks after the old ones, up to `last`, keeping the old entries. The new sectors are accounted as taken from the free map. |
| Inodes.FileSystem.ExtendDouble | pintos/src/filesys/inode.c:504-525 | Allocates the doubly indirect block only when the growth first reaches its range. It then adds the new second-level blocks and writes the table back. The old entries and the old pointer are kept, and nothing else on disk changes. |
| Inodes.FileSystem.ExtendTops | pintos/src/filesys/inode.c:495-525 | All index allocations of the extension. The length, the magic number and the direct pointers are unchanged, and old index pointers and entries are kept. Only the doubly indirect block is written. |
| Inodes.FileSystem.ExtendIndex | pintos/src/filesys/inode.c:495-525 | The same, stated against a consistent file. Under `good`, the file's top, second-level and old data sectors are distinct and apart from the free map, and they are the old owned sectors plus exactly those taken. |
| Inodes.FileSystem.ExtendStep | pintos/src/filesys/inode.c:537-566 | One turn of the data loop allocates block `i`, zeroes it, and records its pointer in the tier `Locate(i)` names. |
| Inodes.FileSystem.ExtendData | pintos/src/filesys/inode.c:537-567 | The data loop places blocks `oi+1..ni` as fresh zeroed sectors taken from the free map, and keeps blocks `0..oi`. |
| Inodes.FileSystem.ExtendRest | pintos/src/filesys/inode.c:526-581 | After the index part: reads the singly indirect pages, runs the data loop, writes the pages and the inode back. Under `good`, the file has grown as `ExtendDone` states. |
| Inodes.FileSystem.ExtendFinish | pintos/src/filesys/inode.c:568-581 | Writes the singly indirect pages and the inode. Under `good`, the file has grown as `ExtendDone` states. |
| Inodes.FileSystem.ExtendFile | pintos/src/filesys/inode.c:485-581 | Grows the file from block `oi` to block `ni`. Under room and consistency, the file has grown as `ExtendDone` states and the inode on disk is the new one. |
| Inodes.FileSystem.ExtendLength | pintos/src/filesys/inode.c:478-583 | Leaves the in-memory length alone and changes nothing when the file is already long enough. Otherwise it writes the grown inode back. Under room, the file has grown to the new length's blocks. |
| Inodes.FileSystem.ReadAt | pintos/src/filesys/inode.c:387-418 | Returns `min(size, length - offset)` bytes, or none at or past the end. Each returned byte is the file's byte at `offset + j`. |
| Inodes.FileSystem.WriteChunk | pintos/src/filesys/inode.c:447-464 | Writes a chunk of at least one byte that stays inside one sector and inside the buffer. It extends the written prefix. |
| Inodes.FileSystem.WriteChunks | pintos/src/filesys/inode.c:444-465 | Writes the whole buffer. On a consistent file, the bytes at `offset` read back as the buffer and every other byte is unchanged. |
| Inodes.FileSystem.WriteFile | pintos/src/filesys/inode.c:442-470 | The write loop plus the length update: the new inode has the new length and is on disk. When the file grew consistently and its old last block was zero past the old length, the buffer reads back at `offset`, every other byte below the old length is kept, every byte from the old length on outside the buffer is zero, and `TailZero` holds again. |
| Inodes.FileSystem.WriteAt | pintos/src/filesys/inode.c:426-474 | Writes nothing and changes nothing when writes are denied or the end passes the corrected guard. Otherwise it writes all of `buffer`, and the length becomes `max(length, offset + size)`, also on disk. For a file that owns its sectors alone and satisfies `TailZero`, with room in the free map: the buffer reads back at `offset`, every other byte below the old length is the old one, every other byte from the old length on is zero (no hole), `TailZero` holds again, and the file still owns its sectors alone. |
| SectorCache.MoveToFrontPermutes | pintos/src/filesys/buffer.c:101-102 | Moving a slot to the front of the LRU list keeps it a permutation of the slots. |
| SectorCache.ScanFindsResident | pintos/src/filesys/buffer.c:62-88 | In a coherent cache, the scan stops at the slot holding the sector. |
| SectorCache.AfterReadCoherent | pintos/src/filesys/buffer.c:51-105 | A read keeps the cache coherent: the order is a permutation, valid slots come first, and no sector is cached twice. |
| SectorCache.ReadThenHit | pintos/src/filesys/buffer.c:89-103 | After a read, the cache is still coherent and the same sector is a hit at the front of the list. A reread returns the same bytes as the first read. |
| SectorCache.AfterReadAgrees | pintos/src/filesys/buffer.c:51-105 | A read that refills from the device keeps every valid slot equal to the device's sector. |
| SectorCache.ReadOutIsDevice | pintos/src/filesys/buffer.c:51-105 | A cache that agrees with the device returns the device's bytes for the sector, on a hit and on a miss. |
| SectorCache.InitialAgrees | pintos/src/filesys/buffer.c:17-45 | The cache `buffer_init` builds holds no valid slot, so it agrees with any device. |
| SectorCache.ScanStop | pintos/src/filesys/buffer.c:62-88 | The scan passes only valid slots that do not hold the sector. It stops at the first invalid slot or the first that holds the sector, or at the end of the list. |
| SectorCache.Victim | pintos/src/filesys/buffer.c:89-93 | The slot refilled on a miss is always a position of the list: the invalid slot the scan stopped at, or the tail. |
| SectorCache.AfterRead | pintos/src/filesys/buffer.c:51-105 | Corrected read: the hit slot or the victim moves to the head and holds the sector. Every other slot is unchanged. |
| SectorCache.AfterReadAsWritten | pintos/src/filesys/buffer.c:89-103 | Read as written: no slot's `valid`, `block_id` or `sector_id` ever changes. |
| SectorCache.FullMissEvictsTail | pintos/src/filesys/buffer.c:89-95 | When all 64 slots are valid and none holds the sector, the miss evicts the least recently used slot and moves it to the front. |
| SectorCache.InitialCoherent | pintos/src/filesys/buffer.c:17-45 | The cache `buffer_init` sets up is coherent. |
| SectorCache.AsWrittenRereadMisses | pintos/src/filesys/buffer.c:94-102 | As written, a sector just read into an empty cache still misses on the next read, because the miss path never marks the slot valid. |
| SectorCache.BufferCache.Init | pintos/src/filesys/buffer.c:17-45 | Succeeds exactly when both allocations do. On success, every slot is invalid and the order holds all 64 slots. |
| SectorCache.BufferCache.Scan | pintos/src/filesys/buffer.c:62-88 | Stops at the first slot that holds the sector or is invalid, or at the end of the list. |
| SectorCache.BufferCache.BufferRead | pintos/src/filesys/buffer.c:51-105 | The new cache is the corrected read's effect on the old one. It stays coherent and in agreement with the device. The returned bytes are the device's sector, served from the cache on a hit and from the device on a miss. |
| PathParser.SkipSlashes | pintos/src/filesys/filesys.c:26-27 | Stops at the first non-slash at or after `i`, or at the end of the path. |
| PathParser.ComponentEnd | pintos/src/filesys/filesys.c:34-39 | Stops at the first slash at or after `i`, or at the end of the path. |
| PathParser.CopyComponent | pintos/src/filesys/filesys.c:30-36 | Succeeds exactly when the component fits in `NAME_MAX` characters. It then returns the component's end, with the component copied and `part` unchanged from there on. Otherwise the first `NAME_MAX` characters are copied. |
| PathParser.GetNextPart | pintos/src/filesys/filesys.c:21-44 | Only slashes left: returns 0, with the cursor and `part` unchanged. A component longer than `NAME_MAX`: returns -1 with the cursor unchanged. Otherwise the component is copied NUL-terminated and the cursor moves past it. It then returns 0 when the path ends there (the last component) and 1 when more follows. |
| FdTable.NewPair | pintos/src/userprog/syscall.c:631-641 | A directory pair holds only the directory and a file pair holds only the file. |
| FdTable.LowestFreeIsLeast | pintos/src/userprog/syscall.c:643-682 | On an ascending table, the chosen descriptor is at least 2, not in use, and every descriptor from 2 up to it is in use. |
| FdTable.LowestFreeWithoutGap | pintos/src/userprog/syscall.c:673-681 | A table with no gap gets the descriptor after its last one. |
| FdTable.LowestFreeAtGap | pintos/src/userprog/syscall.c:660-667 | The first gap in the table is the descriptor handed out. |
| FdTable.InsertKeepsAscending | pintos/src/userprog/syscall.c:655-681 | Inserting between a smaller and a larger descriptor keeps the table strictly ascending. |
| FdTable.ScanAsWritten | pintos/src/userprog/syscall.c:643-682 | Scan as written: picks a descriptor of at least 2, and a list position at which the new pair is inserted. |
| FdTable.FindFreeFdAsWritten | pintos/src/userprog/syscall.c:625-683 | Insertion as written: the list grows by exactly the new pair, placed at some position among the old pairs. All descriptors stay at least 2. |
| FdTable.AsWrittenReusesDescriptor | pintos/src/userprog/syscall.c:665 | As written, a table with descriptors 2 and 4 gets 3 inserted before 2. The next call then hands out 2 again while it is still in use. |
| FdTable.FdList.GetFilePair | pintos/src/userprog/syscall.c:579-593 | Returns none exactly when no pair holds `fd`. Otherwise it returns the first pair that does. |
| FdTable.FdList.ChooseFd | pintos/src/userprog/syscall.c:643-682 | The scan finds the lowest free descriptor and the position where it keeps the table ordered, which is the end when there is no gap. |
| FdTable.FdList.InsertAt | pintos/src/userprog/syscall.c:665 | Inserts the pair at the given position and keeps the table ascending. |
| FdTable.FdList.FindFreeFd | pintos/src/userprog/syscall.c:625-683 | Corrected: returns the lowest free descriptor from 2 and inserts the new pair in order, at the end when the table has no gap. |

## Left out

- Locks (`extend_lock`, `length_lock`, the cache's `list_revise_lock`, `pin_cnt_lock`) and concurrency: every operation runs alone.
- Disk blocks are typed (bytes, index entries, an inode) rather than raw 512-byte images. The encoding of `struct inode_disk` and of index pages into bytes is not modelled.
- `buffer_write` is not among the available sources, so it is not part of this model. The inode layer writes through to the disk map with `WriteBytes`, which overwrites `size` bytes at an offset, and the cache is not involved.
- `buffer_read` is declared with three parameters, while `inode.c` calls it with five (offset and size). The inode layer reads whole sectors from the disk map instead.
- `buffer_read` copies `sizeof *cache_entry` bytes, which is the size of the metadata record, not 512. The model returns exactly one sector.
- `buffer_init` pushes each slot's `cache_elem` by value and never sets `sector_location`. The model gives each slot its own 512-byte buffer.
- `free_map_allocate` and `free_map_release` are an abstract set of free sectors. The bitmap, `free_map.c` and its persistence are not part of this model.
- `malloc`/`calloc` failures are boolean parameters (`memory`, `sectorMemory`, `slotMemory`). Those for the index page buffers in `inode_create` and `inode_extend_length` are not modelled.
- `off_t` is a 32-bit signed integer. Negative sizes and offsets and arithmetic overflow are not modelled, and lengths and offsets are `nat`.
- `inode_init`, `inode_get_inumber`, `byte_to_sector` (the one-argument wrapper) and `bytes_to_sectors` are trivial or unused by the core and are not modelled.
- `struct file`, `struct dir` and the `fd_pair` pointers are opaque handles (`Option<nat>`). `list.c` is not modelled, and the list is a sequence.
- Inodes.FileSystem.Create: reports success even when a disk allocation failed, as `inode_create` does. So its layout ensures hold only when the inode sector was not free and the free map had `SectorsNeeded` sectors.
- Inodes.FileSystem.ExtendLength: its growth ensures hold only when the file was consistent and the free map had room. It requires the corrected length guard, because its only caller, `inode_write_at`, checks it first.
- Inodes.FileSystem.WriteAt: the read-back ensures hold only under the same room condition, because `inode_extend_length` ignores allocation failures. They also assume `TailZero` of the file before the write, which `inode_create` establishes and every write keeps; a disk written by other code is not covered.
- Inodes.FileSystem.WriteChunks: the `chunk_size <= 0` break in `inode_write_at` cannot be reached while bytes remain, so the model omits it and proves every chunk positive.
- Inodes.FileSystem.Close: requires `deny_write_cnt < open_cnt`, because the comment on `inode_allow_write` asks every writer-denier to allow writes before closing.
- `get_next_part`'s C pointer `*srcp` is modelled as an index into the path string.

## Findings

| source | as written | input that shows it | evidently intended | confidence | as-written member | corrected member |
|---|---|---|---|---|---|---|
| pintos/src/filesys/inode.c:127 | `if (length > MAX_LEN)` rejects only lengths above `MAX_LEN` (the same guard is at line 437) | `length == MAX_LEN`: the last block index is 16763, which needs entry 128 of the 128-entry doubly indirect block | reject `length >= MAX_LEN`, so every owned block is addressable | not executed | InodeLayout.AsWrittenAdmitsUnaddressable | InodeLayout.AdmittedIsAddressable |
| pintos/src/filesys/buffer.c:94-102 | the miss path reads the sector into the victim slot but never sets `valid`, `sector_id` or `block_id` | read sector 5 into a fresh cache, then read sector 5 again: the second read misses | mark the victim valid and record its block and sector | not executed | SectorCache.AsWrittenRereadMisses | SectorCache.ReadThenHit |
| pintos/src/userprog/syscall.c:665 | `list_insert (prev_elem, ...)` inserts the new pair before `prev_elem` | table with descriptors 2 and 4: 3 is inserted before 2, giving 3, 2, 4, and the next call hands out 2 again | insert after `prev_elem`, keeping the table ascending | not executed | FdTable.AsWrittenReusesDescriptor | FdTable.FdList.FindFreeFd |
