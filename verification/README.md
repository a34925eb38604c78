# Pintos file-system cache, inode index and virtual-memory tables in Dafny

This project models the core of a Pintos kernel fork in Dafny:

- the buffer cache of the file system;
- the arithmetic and the byte-range loops of its three-level indexed inode;
- the list of open inodes and its counters;
- the swap store, the supplemental page table and the frame table of the
  virtual-memory system;
- the user-pointer checks and the file-descriptor table of the system-call
  layer.

Each piece of kernel state is an immutable value and each kernel routine is a
pure function over it, or a method where the routine is a loop. The disk is a
sequence of 512-byte sectors. Allocators, the file layer and the console are
inputs: the model takes the value they returned as a parameter.

Two kinds of failure in the source are modelled differently:

- A halt the kernel can reach at run time becomes an explicit outcome:
  `PANIC` in `swap_out` and `alloc_frame`, a NULL return, and `sys_exit(-1)`
  on a bad user pointer.
- A condition the source states as an `ASSERT` becomes a `requires` clause,
  because the caller must guarantee it. Examples are PAL_USER in
  `alloc_frame` (frame.c:16) and the deny-write bounds (inode.c:453 and
  462-463). The same goes for the sector and bitmap ranges that Pintos' disk
  and bitmap functions assert, in `BufferCache.Read`/`Write` and
  `Swap.SwapIn`/`SwapFree`.

Modules:

- `Base` (base.dfy) holds the shared constants (sector and page size, the
  32-bit address space), `Option`, `DivRoundUp` and `Splice`.
- `BufferCache` (cache.dfy) models src/filesys/cache.c. Its central property
  is a refinement. `Logical` lays the cache over the disk. Reads return bytes
  of that logical disk. Writes splice bytes into it. Eviction and shutdown
  leave it unchanged.
- `InodeIndex` (inode.dfy) models the sizing arithmetic of `inode_create`,
  the slot split of `byte_to_sector` and the proof that the two agree. It
  also models the chunk loops of `inode_read_at` and `inode_write_at`.
- `OpenInodes` (inode_list.dfy) models `inode_open`, `inode_close`,
  `inode_remove`, `inode_deny_write` and `inode_allow_write`.
- `Swap` (swap.dfy) models src/vm/swap.c.
- `PageTable` (page.dfy) models src/vm/page.c.
- `FrameTable` (frame.dfy) models src/vm/frame.c.
- `Syscall` (syscall.dfy) models `check_vaddr`, `check_bytes` and `get_file`,
  the descriptor bookkeeping of `sys_open` and `sys_close`, and the return
  values of `sys_filesize`, `sys_read` and `sys_write`.

The virtual-memory code has no eviction and no fault handling:
`evict_frame` is empty. `alloc_frame` and `swap_out` halt the kernel when
they run out of frames or swap. `page_load` only checks that an entry
exists.

## Model

| member | source | states |
|---|---|---|
| Base.FirstWhere | src/filesys/cache.c:47-51 | The list walk returns the position of the first matching element, and none exactly when no element matches. Cache lookup, inode lookup (inode.c:286-295), free_frame's search and get_file are all this walk. |
| Base.FirstWhereAppend | src/filesys/cache.c:60 | Appending an element at the back changes a lookup only when nothing earlier matched. |
| BufferCache.Evict | src/filesys/cache.c:93-101 | Eviction drops the oldest entry and lowers the count by one. It writes the entry to disk if and only if the entry is dirty. The logical disk and the cache invariant are unchanged. |
| BufferCache.PopFront | src/filesys/cache.c:31-35 | Popping the front entry, and writing it back if it is dirty, keeps the cache invariant and the logical disk. This is the step shared by eviction and by each iteration of shutdown. |
| BufferCache.MakeRoom | src/filesys/cache.c:52-55 | On a miss the cache evicts exactly when it holds CacheSize (64) entries. Afterwards there is room for one more entry, and the logical disk is unchanged. |
| BufferCache.Insert | src/filesys/cache.c:55-61 | Appending an entry for an uncached sector keeps the invariant. The logical disk changes only at that sector. |
| BufferCache.MakeRoomKeepsMiss | src/filesys/cache.c:52-54 | Making room never brings the missed sector into the cache. |
| BufferCache.Read | src/filesys/cache.c:43-66 | A read returns bytes [ofs, ofs+size) of the sector's logical content and leaves the logical disk unchanged. A hit leaves the store untouched. A miss appends a clean copy of the disk sector at the back, after evicting if the cache is full. |
| BufferCache.WriteHit | src/filesys/cache.c:88-89 | On a hit, only the found entry changes: its bytes take the write and it becomes dirty. Every other entry, with its dirty flag, stays the same, and so do the disk and the order of sectors in the list. |
| BufferCache.ReplaceData | src/filesys/cache.c:88-89 | With distinct sectors, replacing one entry's data changes the logical disk at that entry's sector only. |
| BufferCache.WriteMiss | src/filesys/cache.c:77-89 | On a miss, a new dirty entry goes at the back. Its data is the old logical content with the new bytes spliced in, also when a full-sector write skips the disk read. |
| BufferCache.Write | src/filesys/cache.c:68-91 | A write replaces exactly bytes [ofs, ofs+\|buf\|) of the sector's logical content and leaves the sector cached and dirty. A hit leaves the disk unchanged, and every entry other than the written one keeps its data and dirty flag. |
| BufferCache.Close | src/filesys/cache.c:27-41 | Shutdown empties the list and zeroes the count. Afterwards the disk alone equals the logical disk from before shutdown. |
| InodeIndex.BytesToSectors | src/filesys/inode.c:35-39 | The result is the least number of 512-byte sectors that holds size bytes. |
| InodeIndex.WholeSectors | src/filesys/inode.c:134 | A child given n whole sectors' worth of bytes needs exactly n sectors. |
| InodeIndex.ByteToSector | src/filesys/inode.c:56-75 | There is no sector exactly when pos >= length. Otherwise the three slot numbers are in range (the lower two below 100), and combined they give pos / 512. |
| InodeIndex.SlotUnique | src/filesys/inode.c:60-69 | The slot split is the only in-range triple for a sector, so two distinct data sectors never share a slot. |
| InodeIndex.Count | src/filesys/inode.c:113-148 | Each level's count is the least number of slots that covers the inode's sectors at that level's span (1, 100 or 10000). |
| InodeIndex.ChildSectors | src/filesys/inode.c:130-133 | Every child gets at least 1 sector and at most one span of sectors. Every child except the last gets exactly one span. |
| InodeIndex.ChildLengthSectors | src/filesys/inode.c:153-156 | The byte length passed to the recursive inode_create converts back to the intended sector count. |
| InodeIndex.ChildSizesSum | src/filesys/inode.c:126-162 | The children's sector counts add up to the parent's: no data sector is lost or counted twice. |
| InodeIndex.TopCountFits | src/filesys/inode.c:148 | The top inode's count fits its 100-slot index array exactly when the file has at most 1,000,000 sectors. |
| InodeIndex.SlotInLayout | src/filesys/inode.c:60-69 | Every byte before end of file maps, at each of the three levels, to a slot that inode_create allocated for a file of that length. |
| InodeIndex.ChunkLoop | src/filesys/inode.c:374-396 | The loop transfers max(0, min(size, length - offset)) bytes. The chunks tile that range in order. Each chunk stays within one sector and within the file, and starts at a byte that has a data sector. Every chunk but the last runs to the end of its sector, so each chunk is as large as the loop allows. |
| InodeIndex.ReadAt | src/filesys/inode.c:366-399 | A read at or past end of file transfers nothing. Otherwise it transfers as many of the requested bytes as the file still has, in chunks that fill each sector up to the last one. |
| InodeIndex.GrowAsWritten | src/filesys/inode.c:414-418 | As written: a write that fits keeps the length, and a successful growth sets it to offset+size. A failed growth gives up with the length already larger than before. |
| InodeIndex.FailedGrowthExtendsFile | src/filesys/inode.c:204 | A failed growth of an empty file still leaves a length of 1, so byte 0 appears to have a sector. |
| InodeIndex.Grow | src/filesys/inode.c:414-418 | Corrected: the write gives up exactly when it passes end of file and growth fails, and the length is then unchanged. Otherwise the length becomes max(length, offset+size). |
| InodeIndex.WriteAt | src/filesys/inode.c:406-445 | Corrected (a failed growth leaves the length as it was). A write transfers nothing while writes are denied or when growth fails. A write past end of file that grows the file writes every byte. Otherwise it writes what fits before end of file. Every chunk stays within the new length. |
| InodeIndex.WriteAtAsWritten | src/filesys/inode.c:406-445 | As written: the same cases as WriteAt, except that a failed growth returns 0 with the length already at offset+size (inode.c:204, via `&inode->data` at :415). |
| InodeIndex.FailedWriteDiffers | src/filesys/inode.c:414-416 | Writing 1 byte at offset 0 of an empty file whose growth fails leaves length 1 as written and length 0 as corrected. |
| OpenInodes.Open | src/filesys/inode.c:280-310 | Opening an open sector returns the same inode with one more opener and changes nothing else. Otherwise, if allocation succeeds, a fresh inode goes to the front with one opener, no deniers and not removed. Only a failed allocation returns null. At most one inode per sector is kept. |
| OpenInodes.Close | src/filesys/inode.c:331-352 | A null handle is ignored. The last close unlinks the inode and deletes its blocks exactly when it was removed. Any other close only lowers the opener count. |
| OpenInodes.NonLastCloseBreaksBound | src/filesys/inode.c:339 | A close that is not the last, while every opener denies writes, leaves more deniers than openers: inode_close never checks the bound. |
| OpenInodes.OpenThenClose | src/filesys/inode.c:280-352 | Opening and then closing the returned inode restores the list and deletes nothing. |
| OpenInodes.Remove | src/filesys/inode.c:356-361 | Remove marks only that inode as removed and keeps the invariant. |
| OpenInodes.DenyWrite | src/filesys/inode.c:449-454 | Deny-write adds one denier, never more than there are openers, and changes nothing else. |
| OpenInodes.AllowWrite | src/filesys/inode.c:459-465 | Allow-write removes one denier when there was one and changes nothing else. |
| OpenInodes.DenyThenAllow | src/filesys/inode.c:449-465 | Deny-write followed by allow-write restores the list. |
| Swap.Scan | src/vm/swap.c:37 | The first-fit search returns the lowest index that starts a free run of the given length, or none exactly when there is no free run. |
| Swap.SwapOut | src/vm/swap.c:35-46 | Swap-out fails exactly when no free run of 8 sectors exists. Otherwise it takes the lowest free run and marks exactly those bits used. It writes page sector k to disk sector index+k and changes no other sector. |
| Swap.WritePage | src/vm/swap.c:41-43 | The write loop puts page sector k at disk sector index+k and leaves every other sector alone. |
| Swap.SwapIn | src/vm/swap.c:19-27 | Swap-in returns a 4096-byte page whose sector k is disk sector index+k. It frees exactly the page's run of bits and leaves the disk alone. |
| Swap.GatherSectors | src/vm/swap.c:22-24 | The read loop's bytes are n × 512 long, and their sector k is disk sector index+k. |
| Swap.SwapFree | src/vm/swap.c:29-33 | Swap-free frees exactly the run of bits and leaves the disk alone. |
| Swap.GatherChunks | src/vm/swap.c:22-24 | Reading back the first n sectors swap-out wrote gives the first n sectors' worth of the page. |
| Swap.OutThenIn | src/vm/swap.c:19-46 | Swapping a page out and back in returns the same 4096 bytes and restores the bitmap. |
| Swap.SetRunUndo | src/vm/swap.c:25 | Clearing a run that swap-out had marked restores the bitmap. |
| Swap.FreeThenOut | src/vm/swap.c:29-46 | After swap-free, the next swap-out succeeds at that index or a lower one. |
| Swap.OutTwiceDisjoint | src/vm/swap.c:35-46 | Two successive swap-outs get disjoint runs. |
| PageTable.RoundDown | src/vm/page.c:33 | The rounded address is page-aligned and starts the page that holds the address. |
| PageTable.Find | src/vm/page.c:47-54 | The lookup finds the entry stored under the address's page, or null exactly when the page has none. A found entry's page contains the address. |
| PageTable.FindSamePage | src/vm/page.c:47-54 | Every address within one page finds the same entry. |
| PageTable.CreateAsWritten | src/vm/page.c:28-40 | As written: only a fresh page changes the table. Every malloc success returns the newly built entry, including on a duplicate page, where that entry has been freed. |
| PageTable.CreateAsWrittenReturnsFreed | src/vm/page.c:37-39 | Whenever the page already holds an entry different from the one being built, the entry returned is not the one the table holds. |
| PageTable.CreateOverSwappedPage | src/vm/page.c:37-39 | An instance: creating a writable entry over a read-only swapped-out page 0 at address 5. |
| PageTable.Create | src/vm/page.c:28-40 | Corrected: a malloc failure or an existing page returns null and keeps the table. Otherwise the new writable-as-asked entry is added under the rounded page, and the returned entry is always the stored one. |
| PageTable.CreateThenFind | src/vm/page.c:28-54 | After a create, every address of that page finds the new entry and other pages find what they found before. |
| PageTable.Delete | src/vm/page.c:42-45 | Delete removes the entry's page and keeps every other entry and the invariant. |
| PageTable.DeleteThenFind | src/vm/page.c:42-54 | After a delete, the page finds nothing and other pages are unaffected. |
| PageTable.Load | src/vm/page.c:56-69 | The load succeeds exactly when the page has an entry. |
| FrameTable.AllocFrame | src/vm/frame.c:15-28 | The allocation halts exactly when the allocator has no page. Otherwise it appends one entry for the frame, with no page, and returns the frame. |
| FrameTable.FreeFrame | src/vm/frame.c:30-42 | Free unlinks the first entry for the frame and keeps the rest in order. An unknown frame leaves the table alone. |
| FrameTable.FreeFrameCounts | src/vm/frame.c:33-38 | Free removes exactly one entry for a frame it finds and none for any other frame. |
| FrameTable.AllocThenFree | src/vm/frame.c:15-42 | Allocating a new frame and freeing it restores the table. |
| Syscall.CheckVaddr | src/userprog/syscall.c:26-30 | The process survives the check (neither a kernel address nor one below 0x08048000) exactly when the address lies in [0x08048000, PHYS_BASE). |
| Syscall.CheckBytes | src/userprog/syscall.c:32-40 | The check passes exactly when every byte of the range, with the pointer wrapping at 2^32, is a user address at or above 0x08048000. That holds exactly when the range is empty or lies in [0x08048000, PHYS_BASE). |
| Syscall.RangeForm | src/userprog/syscall.c:26-40 | Byte-by-byte validity equals the closed range form, so wrap-around cannot slip a range past the check. |
| Syscall.CrossesBase | src/userprog/syscall.c:28 | A user range that runs past PHYS_BASE fails the check. |
| Syscall.GetFile | src/userprog/syscall.c:61-71 | get_file returns null exactly when no entry has the descriptor. Otherwise it returns the file of the first entry with that descriptor. |
| Syscall.GetFileAt | src/userprog/syscall.c:61-71 | With distinct descriptors, get_file finds each entry's own file. |
| Syscall.Open | src/userprog/syscall.c:259-279 | A failed open or a failed page allocation returns -1 and changes nothing. Success returns the old maxfd, records it for the file at the back of the list and raises maxfd by one. Descriptors stay distinct, above 1 and below maxfd. |
| Syscall.OpenThenGet | src/userprog/syscall.c:259-279 | The descriptor returned by open names the opened file. |
| Syscall.Close | src/userprog/syscall.c:347-368 | Close unlinks the first entry with the descriptor and reports its file. An unknown descriptor changes nothing. |
| Syscall.CloseForgets | src/userprog/syscall.c:354-362 | With distinct descriptors, the descriptor close removed names no file afterwards. |
| Syscall.CloseKeeps | src/userprog/syscall.c:354-362 | Close leaves every other descriptor naming the same file. |
| Syscall.CloseThenGet | src/userprog/syscall.c:347-368 | After close the descriptor names no file, and every other descriptor names what it named before. |
| Syscall.Filesize | src/userprog/syscall.c:281-290 | filesize returns -1 for an unknown descriptor and otherwise the file's length. |
| Syscall.Read | src/userprog/syscall.c:292-308 | Reading stdin returns size as a C int. An unknown descriptor gives -1. Otherwise read returns file_read's result. |
| Syscall.Write | src/userprog/syscall.c:310-324 | Writing stdout returns size as a C int. An unknown descriptor gives -1. Otherwise write returns file_write's result. |
| Syscall.ConsoleCrossed | src/userprog/syscall.c:281-324 | In a well-formed table, reading stdout, writing stdin, and asking the size of either console descriptor all return -1. |

## Left out

- Locks (`cache_lock`, `swap_lock`, `frame_lock`, `file_lock`) and all concurrency: each routine is modelled as one atomic step.
- The devices: disk contents are a sequence of sectors, and disk_read/disk_write are reads and updates of it. The console (`input_getc`, `putbuf`) is not modelled; only the value returned is.
- malloc, calloc, palloc_get_page and free: where the source checks the result, a success flag or the returned page is a parameter. Freeing is not modelled.
- BufferCache.Read / BufferCache.Write: the unchecked mallocs of a new entry and its data (cache.c:56-57 and 81-82) are assumed to succeed. A NULL there would be dereferenced at once.
- InodeIndex.WriteAt: whether `inode_growth` succeeds is an input. The block-by-block allocation of `inode_growth` (free_map_allocate and the recursive grow) is not modelled, and neither are the free-map and inode-index writes of `inode_create` and the recursion of `inode_delete`. The model covers their counts and sizes.
- InodeIndex.WriteAt: models the corrected write. After a failed growth it keeps the old length, whereas the source leaves offset+size (inode.c:204). InodeIndex.WriteAtAsWritten models the source as written; see Findings.
- InodeIndex.ByteToSector: returns the slot triple and does not follow it through the cached index blocks to a sector number. The calloc failure that also returns -1 is not modelled.
- InodeIndex.ChunkLoop: positions and lengths are unbounded integers, so the 32-bit `off_t` overflow of offset+size is not modelled.
- InodeIndex.TopCountFits: the source never checks that a file fits the 100 top-level slots. The bound is stated as a lemma, not imposed on the operations.
- OpenInodes.Open: the cache_read of the on-disk inode into the new in-memory inode is not modelled. Inodes are named by their position in the list.
- OpenInodes.Close: it promises that the counter bounds still hold only when the close is the last one or there were fewer deniers than openers. A close that is not the last, with deniers equal to openers, breaks the bound (NonLastCloseBreaksBound), because the source does not check it.
- Swap.SwapOut: the kernel halt when the swap disk is full is the NoSpace outcome.
- FrameTable.AllocFrame: the kernel halt on an empty pool is the Panic outcome. The malloc of the frame entry is assumed to succeed. The frame's page pointer is always null here, because nothing in this code sets it.
- FrameTable.FreeFrame: the palloc_free_page that follows is not modelled.
- `evict_frame` is empty in the source, so it has no model. `page_table_init`, `page_table_destroy` and the hash functions are replaced by the map.
- Syscall.Open: on a failed page allocation the source leaks the opened file. The model returns -1 and does not track the leaked file. The initial value of maxfd is set in thread.c, which is not part of this model; `Valid` asks only that it be above the console descriptors.
- Syscall.Open: maxfd is an unbounded integer. In the source it is a C `int` (syscall.c:267, 276) that overflows after about 2^31 successful opens, after which descriptors would no longer stay distinct and positive. That overflow is not modelled.
- Syscall.CheckBytes: a failing check terminates the process (sys_exit(-1)); here it returns false.
- `check_string`, `get_kernel_ptr`, the argument marshalling of `syscall_handler`, `sys_halt`, `sys_exit`, `sys_exec`, `sys_wait`, `sys_create`, `sys_remove`, `sys_seek` and `sys_tell`: these are process control or thin wrappers around the file layer (src/filesys/filesys.c, not part of this model).

## Findings

| source | as written | input that shows it | evidently intended | confidence | as-written member | corrected member |
|---|---|---|---|---|---|---|
| src/vm/page.c:37-39 | When the page already has an entry, `page_create` frees the new entry and still returns it. | A table with a read-only swapped-out entry for page 0, then page_create at address 5, writable. | Return NULL and leave the table as it was, as for a failed malloc. | high, not executed | PageTable.CreateAsWritten | PageTable.Create |
| src/filesys/inode.c:204 | `inode_growth` stores the new length into the in-memory inode (`&inode->data`, inode.c:415) before allocating. A failed growth returns 0 but leaves the file longer. | An empty file, then inode_write_at of 1 byte at offset 0 whose growth fails. | A failed growth leaves the length unchanged; only a successful growth sets it (inode.c:417). | medium, not executed | InodeIndex.WriteAtAsWritten | InodeIndex.WriteAt |
