# lfs: an in-memory block file system, modelled in Dafny

`lfs.c` is a FUSE file system that keeps all of its data in memory. The
store is an array of `BLOCK_NR` (1 048 576) blocks of `BLOCK_SIZE` (4096)
bytes, each mapped on demand, with an occupancy `bitmap`. A super node holds
`filenum`, `usedblock` and the allocation cursor `pos`. Files form a linked
list after a root node. Each file owns a chain of index nodes, and each node
has 100 data-block slots (`-1` when empty) and a `next` pointer. Byte offset
`x` of a file lives in logical block `x / 4096`, which is slot
`(x / 4096) % 100` of the node `(x / 4096) / 100` hops from the chain head.

The model covers the storage engine:
- the allocator (`lfs_malloc`, `lfs_find_free_block`) and the recursive
  release `lfs_free_inode`;
- the directory list (`get_filenode`, `create_filenode`);
- the operations `lfs_init`, `lfs_getattr`, `lfs_readdir`, `lfs_mknod`,
  `lfs_write`, `lfs_truncate`, `lfs_read` and `lfs_unlink`.

The state is one class, `Lfs.FileSystem`:
- `bitmap`: an `array<bool>`;
- `mem`: a map from block number to its 4096 bytes, present exactly for
  mapped blocks;
- `nodes`: the index nodes, by the block that holds each one;
- `dir`: the file list after root, in list order;
- `rootSt`, `filenum`, `usedblock` and `pos`.

Three ghost fields keep the proof honest:
- `chains` lists each file's nodes, from the head to the node whose `next`
  is NULL;
- `owner` records what every live block was allocated for, so that no block
  is shared;
- `leaked` counts node blocks that were freed without a `usedblock`
  decrement.

`Valid()` ties these together:
- the bitmap agrees with `mem`;
- `usedblock` is the number of set bits plus `leaked`;
- every owned block is mapped;
- every file's chain is well formed and owns its nodes and data blocks.

Every operation preserves `Valid()`. Each is also specified against
functions of the state:
- `FileByte` is the byte a file holds at an offset;
- `Lookup` is what `get_filenode` finds;
- `Truncated`, `ReleasedNodes`, `ReleasedData` and `ReleasedCount` are what
  a release frees;
- `NextFree` is the block the cyclic bitmap scan picks;
- `WriteNeed` is how many blocks a write allocates;
- `WriteByte` is the byte a write leaves at each position.

The model follows the code as written, including behaviour a reader of the
code may not expect:
- **The write buffer does not advance.** In `lfs_write` the interior loop
  (lfs.c:268-293) copies from `buf` on every turn and never advances it. The
  block holding `offset` gets the bytes of `buf` in order; every later block
  starts again at `buf[0]` (see `Transfer.WriteByte`, `Transfer.ReadBack`).
  A write that stays inside one block reads back exactly; a longer one does
  not.
- **Interior blocks are always fresh.** The interior loop allocates a new
  data block for every slot it visits. At slot 0 it allocates a new index
  node and stores it into `inode->next`, so any nodes that followed are cut
  off the chain.
- **The space check counts bytes.** `lfs_write` refuses a request only when
  `size > (BLOCK_NR - usedblock) * BLOCK_SIZE` (lfs.c:213-217). It does not
  count blocks.
- **The cursor stays on the found block.** The allocator leaves `pos` on the
  block it found (lfs.c:88), not past it.
- **Truncate zeroes the first block.** `lfs_truncate` zeroes the tail of the
  block in slot 0 of the file's first node, loaded before the walk
  (lfs.c:304, 307). For a size above 4096 this is not the block where the
  new end of file lies.
  For size 0 it changes nothing but the attributes.
- **Node frees leak from `usedblock`.** `lfs_free_inode` does not decrement
  `usedblock` when it frees an index node's own block (lfs.c:73-76).
- **Unlink leaves `filenum` alone.** `lfs_unlink` decrements `usedblock` for
  the entry block and never decrements `filenum` (lfs.c:400-402).
- **Read may copy more than it reports.** `lfs_read` reports
  `st_size - offset` when the read runs past the end of file, yet copies
  `size` bytes (lfs.c:343-345, 361-387).
- **Create leaks on half failure.** `create_filenode` keeps the entry block
  mapped and counted when only its second allocation fails (lfs.c:117-119).

The files, in dependency order:
- `layout.dfy` (`Layout`): the constants, and the arithmetic from an offset
  to (hops, slot, offset in block).
- `bitmap.dfy` (`Bitmap`): the population count of the bitmap.
- `bytes.dfy` (`Bytes`): blocks, `memcpy` and `memset`.
- `chains.dfy` (`Chains`): index nodes, chain well-formedness, ownership, and
  what a release, cut, relink or slot fill does to a chain.
- `transfer.dfy` (`Transfer`): the file's byte view and the copying walks of
  `lfs_read`.
- `lfs.dfy` (`Lfs`): the directory, the allocator, the `FileSystem` class
  and every operation.

## Model

| member | source | states |
|---|---|---|
| Layout.SplitExact | lfs.c:224-227 | the (hops, slot, offset) that `lfs_write` computes recompose to the offset; hops * 100 + slot is offset / 4096 |
| Layout.SplitUnique | lfs.c:351-356 | any in-range coordinates that denote an offset are the coordinates `lfs_write` computes, so read's walk and write's division agree |
| Layout.Walk | lfs.c:351-356 | one stride of the walk keeps the slot in range and advances the logical block by exactly one, wrapping to the next node |
| Layout.WalkPreserves | lfs.c:351-356 | a stride that takes one block off the remaining offset keeps the linear position |
| Layout.HopsBound | lfs.c:329-335 | a walk that stops at or before an offset never needs more node hops than that offset's own coordinates |
| Layout.NextSlot | lfs.c:266 | the next slot index is u + 1, or 0 after slot 99 |
| Bitmap.CountUpdate | lfs.c:55 | setting or clearing one bit changes the count of set bits by exactly that bit |
| Bitmap.CountFull | lfs.c:83-91 | the count equals the bitmap's length exactly when every bit is set |
| Bytes.ZeroBlock | lfs.c:52-54 | a newly mapped block is 4096 zero bytes |
| Bytes.CopyInto | lfs.c:257 | memcpy: the source bytes land at [at, at + n) and every other byte is kept |
| Bytes.ZeroFrom | lfs.c:307 | memset: bytes from `at` on become zero and bytes before it are kept |
| Chains.EmptySlots | lfs.c:123-124 | a new index node has 100 slots, all EMPTY |
| Chains.Stop | lfs.c:64-67 | the slot loop stops at the first EMPTY slot at or after flag, or at the end of the node; every slot it passes is in use |
| Chains.StopAt | lfs.c:64-67 | that stopping point is unique |
| Chains.ClearRange | lfs.c:70 | slots [f, t) become EMPTY and every other slot is kept |
| Chains.ClearFrom | lfs.c:64-72 | after the slot loop, exactly the slots from flag up to the first EMPTY are EMPTY |
| Chains.ReleaseUnfold | lfs.c:60-76 | a release from node j splits into node j's own block (for flag 0) and the release of node j + 1 from slot 0 |
| Chains.ReleasedOwned | lfs.c:60-76 | every node and data block a release frees belongs to the released file, at or after the release point in chain order |
| Chains.NodeSurvives | lfs.c:62-63 | releasing the nodes after node j leaves node j well formed and unchanged |
| Chains.ReleaseKeeps | lfs.c:60-76 | removing blocks that all belong to one file keeps everything every other file owns |
| Chains.LastSlotRelease | lfs.c:308-315 | releasing node h from slot 100 is the release of node h + 1 from slot 0, so truncate's two branches agree |
| Chains.ChainDistinct | lfs.c:14-18 | distinct positions of a well-formed chain hold distinct nodes |
| Chains.TruncKeeps | lfs.c:305-337 | truncating at node h, slot flag, leaves every logical block before h * 100 + flag attached where it was |
| Chains.TruncChainOk | lfs.c:305-337 | the chain truncate leaves, its first h + 1 nodes with node h's tail cleared, is well formed under the reduced ownership |
| Chains.TruncatedLast | lfs.c:308-311 | the release of node h + 1 from slot 0, then node h's next set to NULL, gives the truncated chain |
| Chains.TruncatedInner | lfs.c:312-315 | the release of node h from slot flag, then its next set to NULL, gives the truncated chain |
| Chains.RelinkChainOk | lfs.c:269-279 | a fresh node stored as node j's next gives a well-formed chain: the first j + 1 nodes, then the new node |
| Chains.RelinkSlots | lfs.c:269-279 | after that relink, logical blocks of the first j + 1 nodes are kept and every later one is EMPTY |
| Chains.FillChainOk | lfs.c:284 | a fresh block put in a slot, owned by that slot, keeps the chain well formed |
| Chains.FillSlots | lfs.c:284 | after a slot fill, that logical block is the new block and every other logical block is kept |
| Chains.SlotOwned | lfs.c:246-247 | an attached logical block is a data block owned by exactly the slot that holds it |
| Chains.SlotUnique | lfs.c:246-247 | no block is attached at two logical positions of one chain |
| Transfer.ReadChain | lfs.c:346-387 | the copying part of `lfs_read`: if the slot holding the first byte is EMPTY, buf comes back unchanged; otherwise out[i] is the file's byte at offset + i for every i < size |
| Transfer.ReadNext | lfs.c:368-370 | after the first block the next byte starts logical block offset / 4096 + 1, reached from slot (s + 1) % 100 |
| Transfer.BlockCopied | lfs.c:361-366 | a block copy extends the prefix of the buffer that agrees with the file |
| Transfer.Seek | lfs.c:351-356 | the first loop of `lfs_read` ends at the offset's coordinates, on the node that holds its logical block |
| Transfer.ReadRest | lfs.c:368-387 | the second loop of `lfs_read` makes out[i] the file's byte at offset + i for every i < size |
| Transfer.CopyBlock | lfs.c:376-385 | one memcpy of the second loop extends the agreeing prefix by n bytes |
| Transfer.FillView | lfs.c:250-254 | attaching a fresh zero block where none was leaves every byte of the file as it was |
| Transfer.CopyView | lfs.c:256-263 | a memcpy into an attached block changes the file's bytes in that range only, to the copied bytes |
| Transfer.OtherFileKept | lfs.c:211-295 | when the index nodes and blocks file e does not own are unchanged, another file's bytes are unchanged at every offset |
| Transfer.ViewKeep | lfs.c:231-243 | two states that attach the same blocks below a logical block, with the same contents, agree on the file's bytes there |
| Transfer.WriteInBlock | lfs.c:256-263 | a write that fits in the block holding its offset leaves buf at [offset, offset + size) |
| Transfer.WriteRestarts | lfs.c:285-290 | in every block after the first, the byte a write leaves is buf[x % 4096], so the first byte of the second block is buf[0] |
| Transfer.ReadBack | lfs.c:340-389 | a read over a written range returns the written bytes: exactly buf when the write fits in one block, buf[0] again at the start of the second block otherwise |
| Lfs.FirstIndex | lfs.c:96-102 | the index of the first entry with that name, or None exactly when no entry has it |
| Lfs.Lookup | lfs.c:94-103 | `get_filenode`: root exactly when the path minus its first character is root's empty name; otherwise the first entry whose name matches; NotFound exactly when none does |
| Lfs.OtherEntriesKept | lfs.c:211-295 | a change that keeps what file e does not own, and every chain but e's, keeps every byte of every other entry of the directory |
| Lfs.LookupSameNames | lfs.c:94-103 | entries changed without changing their names are found exactly as before |
| Lfs.LookupFront | lfs.c:125-130 | after a new entry is inserted right after root, looking up its name finds it at the front |
| Lfs.LookupWithout | lfs.c:397-399 | after the entry found for a name is unlinked, the name is not found when no later entry has it |
| Lfs.NextFree | lfs.c:80-92 | the scan from pos returns -1 exactly when every bit is set, and otherwise a clear bit |
| Lfs.NextFreeFacts | lfs.c:83-87 | the scan returns -1 only on a full bitmap, and every bit it passes on the way from pos is set |
| Lfs.NextFreeFromFacts | lfs.c:83-86 | the scan from distance d finds nothing exactly when every later bit is set, and otherwise stops at the first clear one |
| Lfs.AddEntry | lfs.c:120-130 | a new entry on two fresh blocks, with an empty first node, keeps the directory well formed |
| Lfs.Without | lfs.c:397-399 | unlinking entry k keeps the entries before and after it, in order |
| Lfs.UnlinkDirOk | lfs.c:391-404 | releasing a file's chain and entry block, and unlinking the entry, keeps the rest of the directory well formed and every other file's blocks owned as before |
| Lfs.StatUpdate | lfs.c:220-223 | new attributes whose block count follows the size keep the directory well formed |
| Lfs.TruncDirOk | lfs.c:297-338 | cutting one file's chain keeps every entry well formed |
| Lfs.TruncByte | lfs.c:299-337 | a byte below the new size, outside the zeroed part of the first block, keeps its value after the memset, release and cut |
| Lfs.TruncView | lfs.c:299-337 | truncating to a positive size keeps every logical block up to (size - 1) / 4096 where it was and every byte below size except the zeroed part of the first block |
| Lfs.TruncMemIs | lfs.c:307 | the truncate memset zeroes the chain's first block from size % 4096 on exactly when the size is not a block multiple |
| Lfs.GrowDirOk | lfs.c:231-293 | replacing one file's chain by a well-formed chain from the same head, with ownership only grown, keeps the directory well formed |
| Lfs.NeedRestStep | lfs.c:268-293 | one turn of the interior write loop allocates two blocks at slot 0 and one otherwise, and leaves the rest for the next slot |
| Lfs.FirstBlockRange | lfs.c:256-263 | the bytes copied into the first block lie in that block at consecutive positions |
| Lfs.FileSystem.Init | lfs.c:134-161 | blocks 0 and 1 mapped and zeroed, every other bit clear, no files, usedblock 2, and the root's directory attributes |
| Lfs.FileSystem.ScanFree | lfs.c:81-87 | the scan returns NextFree of the bitmap from pos |
| Lfs.FileSystem.FindFreeBlock | lfs.c:80-92 | the result is NextFree, and pos moves to it on success |
| Lfs.FileSystem.Malloc | lfs.c:46-58 | a clear bit is set, the block zero-filled and usedblock incremented; a set bit is refused with nothing changed |
| Lfs.FileSystem.AllocBlock | lfs.c:107-110 | find_free_block then lfs_malloc: the block found is mapped fresh, or with no clear bit -1 comes back and nothing changes |
| Lfs.FileSystem.Allocate | lfs.c:250-251 | with a clear bit known to exist, the block NextFree picks is mapped fresh and the free count drops by one |
| Lfs.FileSystem.FreeInode | lfs.c:60-78 | exactly the released nodes and data blocks leave mem and owner; node j's slots are cleared up to the first EMPTY; usedblock drops by ReleasedCount; node frees go to leaked |
| Lfs.FileSystem.ReleaseOne | lfs.c:64-76 | node id's own part of the release: its slots from flag up to the first EMPTY, then its own block when flag is 0 |
| Lfs.FileSystem.FreeSlots | lfs.c:64-72 | the slot loop frees exactly the blocks of slots [flag, Stop) and usedblock drops by their number |
| Lfs.FileSystem.ReleaseNext | lfs.c:64-72 | one turn of the slot loop keeps its invariant |
| Lfs.FileSystem.SlotsDone | lfs.c:64-67 | the slot loop ends at Stop(slots, flag) |
| Lfs.FileSystem.ReleaseSlot | lfs.c:68-71 | a slot's block is unmapped, its bit cleared, the slot set to EMPTY and usedblock decremented |
| Lfs.FileSystem.FreeBlock | lfs.c:400-402 | a block is unmapped and its bit cleared, and usedblock drops by one |
| Lfs.FileSystem.FreeNodeBlock | lfs.c:73-76 | a node block is unmapped and its bit cleared, and usedblock is not changed |
| Lfs.FileSystem.GetFilenode | lfs.c:94-103 | the result is Lookup of the directory |
| Lfs.FileSystem.Getattr | lfs.c:163-177 | "/" gets zeroed directory attributes, a found node its own attributes, anything else -ENOENT with stbuf unchanged |
| Lfs.FileSystem.Readdir | lfs.c:179-189 | ".", "..", then every file name in list order |
| Lfs.FileSystem.CreateFilenode | lfs.c:105-132 | with two free blocks, a new entry holds and owns the two blocks NextFree picks and sits at the front with an empty node as its whole chain and filenum + 1; with one free block that block stays mapped, zeroed and counted, -1 comes back, and the directory, nodes, ownership and chains are unchanged; with none nothing changes |
| Lfs.FileSystem.Link | lfs.c:120-130 | the entry goes in right after root with an empty first node, and filenum grows by one |
| Lfs.FileSystem.Mknod | lfs.c:191-205 | with no free block, -ENOSPC and nothing changes; with one, -ENOSPC with that block mapped, zeroed and counted and the directory, nodes, ownership and chains unchanged; with two or more, 0 and a front entry with mode 0644, the caller's uid and gid, nlink 1 and size 0, on the two blocks NextFree picks, which it owns, with a one-node chain, usedblock + 2 and filenum + 1 |
| Lfs.FileSystem.Read | lfs.c:340-389 | ret is size, clamped to st_size - offset past the end of file; buf is unchanged for an EMPTY first slot; otherwise out[i] is the file's byte at offset + i |
| Lfs.FileSystem.Unlink | lfs.c:391-404 | the entry leaves the list, its whole chain and entry block are freed, usedblock drops by the data blocks plus one, and other files' blocks are unchanged |
| Lfs.FileSystem.Memset | lfs.c:307 | block b is zeroed from byte `at` on |
| Lfs.FileSystem.Cut | lfs.c:308-315 | the chain becomes Truncated(h, cb + 1) and is cut after node h; exactly the released blocks leave mem and owner |
| Lfs.FileSystem.Release | lfs.c:308-315 | truncate's two free_inode branches both release from (h, cb + 1) |
| Lfs.FileSystem.Truncate | lfs.c:297-338 | size and block count are set; for size 0 nothing else changes; otherwise the chain is cut after the node of block (size - 1) / 4096, the first block is zeroed from size % 4096, and exactly the released blocks leave mem, with usedblock down by ReleasedCount; every logical block up to (size - 1) / 4096 stays attached where it was, and every byte below size keeps its value except those of the first block from size % 4096 on |
| Lfs.FileSystem.CutAt | lfs.c:305-328 | where the walk stops, at coordinates Split(size - 1): the memset of the first block, then the cut |
| Lfs.FileSystem.TruncateEntry | lfs.c:299-337 | the walk of `lfs_truncate` on a found entry, with the same result as Truncate |
| Lfs.FileSystem.CopyTo | lfs.c:286-289 | a memcpy into block d from byte `at` on |
| Lfs.FileSystem.FillSlot | lfs.c:280-284 | a fresh zero block goes into the slot, whatever it held; only that logical block changes |
| Lfs.FileSystem.LinkNode | lfs.c:269-279 | a fresh empty node becomes node j's next; the chain becomes its first j + 1 nodes and the new one; bytes below the new node are kept |
| Lfs.FileSystem.FirstBlock | lfs.c:245-255 | a slot holding a positive block number is reused, otherwise a fresh block is attached; the file's bytes are unchanged either way, and the block is mapped and attached at the offset's slot |
| Lfs.FileSystem.FillCopy | lfs.c:280-290 | a fresh block in that slot holds the first n bytes of buf; every other block of the file is unchanged |
| Lfs.FileSystem.WriteBlock | lfs.c:268-292 | one turn of the interior loop: the block gets buf's leading bytes and the blocks before it are unchanged |
| Lfs.FileSystem.WriteTurn | lfs.c:268-293 | one turn keeps the loop invariant |
| Lfs.FileSystem.WriteRest | lfs.c:265-293 | every block from L to the end of the write holds buf[x % 4096], the blocks before L are unchanged, and exactly NeedRest blocks are allocated |
| Lfs.FileSystem.RestDone | lfs.c:268-293 | when the interior loop ends, its invariant gives the loop's result |
| Lfs.FileSystem.HopStep | lfs.c:232-242 | one hop: a fresh node is appended when there is no next; the file's logical blocks are unchanged |
| Lfs.FileSystem.HopTo | lfs.c:231-243 | n hops from the head, appending the missing nodes; the logical blocks and bytes of the file are unchanged |
| Lfs.FileSystem.FirstCopy | lfs.c:245-263 | n bytes of buf land in the first block from byte off on; every other byte of the file, in that block before off or from off + n on and in every other block, is unchanged; the offset's slot holds a block |
| Lfs.FileSystem.WriteFirst | lfs.c:224-263 | the hop loop, the first block and its copy: bytes before the offset, and from the end of the copy on, are unchanged, and those in the offset's block come from buf in order; that block is attached |
| Lfs.FileSystem.WriteEntry | lfs.c:219-295 | `lfs_write` on a found entry: the same result as Write, with the index nodes and blocks other files own unchanged |
| Lfs.FileSystem.Write | lfs.c:211-295 | a request of more than (BLOCK_NR - usedblock) * 4096 bytes gets -ENOSPC and changes nothing. Otherwise: the size grows to offset + size if the write ends past it; bytes before the offset are kept; bytes from the offset are WriteByte(buf, offset, x); exactly WriteNeed blocks are allocated; the data blocks and index nodes other files own are unchanged, so every other entry keeps its chain and all of its bytes; size is returned; a write inside one block leaves the offset's node on the chain, its block attached and every byte from offset + size on unchanged |
| Lfs.FileSystem.WriteThenRead | lfs.c:211-367 | `lfs_write` then `lfs_read`: a write inside one block that is not refused, followed by a read of the same range, reports size for both and reads back exactly the bytes written |

## Left out

- FUSE wiring is not part of this model: `fuse_operations`, `main`,
  `lfs_open`, the `filler` callback, `printf`, and `mmap`/`munmap` as system
  calls. A mapped block is an entry of `mem`; unmapping removes it.
- `fuse_get_context()` supplies the uid and gid. In `Init` and `Mknod` they
  are parameters.
- Entry blocks are modelled abstractly. The filenode record, its name, its
  `offset` field and its `stat` copy, which the source stores inside the
  entry's block, live in `dir` instead. In `mem` that block stays zero-filled.
- The list's `next`/`last` pointers are modelled by list positions.
- Concurrency is not modelled, since FUSE dispatch is assumed serial.
- 32-bit arithmetic is excluded instead of modelled:
  - `Read`, `Write` and `Truncate` require `offset + size` (or `size`) to be
    at most `INT_MAX`, so every `(int)` cast in the source keeps its value;
  - the `int32_t` counters are unbounded integers, so a wrap after 2^31
    leaked frees is not modelled.
- Lfs.FileSystem.Write: requires that the free blocks cover `WriteNeed`
  when the byte check at lfs.c:213-217 passes.
  - Otherwise `lfs_find_free_block` returns -1 and `lfs_malloc(-1)` indexes
    `bitmap[-1]`, which is undefined behaviour.
  - For the same reason the `-ENOSPC` returns after a failed `lfs_malloc`
    (lfs.c:235-236, 252-253, 272-273, 282-283) are not modelled. They cannot
    fire on a block that `lfs_find_free_block` found clear.
- Lfs.FileSystem.Write: for a write that runs past its first block, the
  bytes after offset + size are not stated. They are zeros in the last fresh
  block, EMPTY after a slot-0 relink, and otherwise the old blocks.
- Lfs.FileSystem.Write: requires the path to exist and `offset + size` to
  be at most `INT_MAX` only when the space test at lfs.c:213-217 passes. That
  test runs before `get_filenode` (lfs.c:219), so a refused request gets
  -ENOSPC whatever the path. A missing path that passes the test makes the
  source dereference NULL, so that case is excluded.
- Lfs.FileSystem.Write: does not state the final `pos`, only that the
  allocations are the ones `NextFree` picks at each step.
- Lfs.FileSystem.Read: requires the path to name a file of the list.
  For a missing path the source dereferences a NULL `node` (lfs.c:342-344),
  and for "/" it follows the root's NULL `inode` (lfs.c:347-348).
- Lfs.FileSystem.Read: requires `ReadReaches`. The node holding the first
  byte must be on the chain. When the read runs past the first block and that
  block is attached, every later block up to the last byte must be attached
  too. Otherwise the source follows a NULL `next` or copies from `mem[-1]`.
- Lfs.FileSystem.Read: the load of `mem[inode->Data_block[0]]` before the
  walk (lfs.c:348) is not modelled. Its value is never used; with an EMPTY
  slot 0 it reads `mem[-1]`.
- Lfs.FileSystem.Truncate: requires the path to name a file of the list.
  For a missing path the source dereferences a NULL `node` (lfs.c:298-299),
  and for "/" it follows the root's NULL `inode` (lfs.c:303-304).
- Lfs.FileSystem.Truncate: requires that the walk stays on the chain
  (`Split(size - 1).hops < |c|`). When the memset runs (size not a block
  multiple), it also requires slot 0 of the first node to be attached.
  Otherwise the source follows a NULL `next` or writes through `mem[-1]`.
- Lfs.FileSystem.Truncate: the load of `mem[inode->Data_block[0]]` at
  lfs.c:304 is not modelled for a size of 0 or a positive multiple of 4096.
  Its value is used only by the memset, which does not run then. For those
  sizes the model does not require slot 0 to be attached, and the source
  would read `mem[-1]` when it is EMPTY.
- Lfs.FileSystem.Init: blocks 0 and 1 hold the super node and the root
  filenode in the source (lfs.c:137-150). Here they stay zero-filled, and
  the counters and root attributes live in fields of the class.
- Lfs.FileSystem.CreateFilenode: requires a name shorter than 255
  characters, since `memcpy` into `char filename[255]` overruns a longer
  one.
- Lfs.FileSystem.CreateFilenode: the name is taken as given, and a name
  with an embedded NUL is not truncated.
- Lfs.FileSystem.Unlink: requires the path to name a file of the list.
  For a missing path the source dereferences a NULL `node` at
  lfs.c:392-393. For "/" the root's `inode` is NULL, and `lfs_free_inode`
  dereferences it at lfs.c:62.
- Lfs.FileSystem.Unlink: the error branch at lfs.c:393-396 is not
  modelled, since `lfs_free_inode` always returns 0.
- Lfs.FileSystem.Mknod: the `mode` and `dev` arguments are ignored, as in
  the source.
- Lfs.FileSystem.Readdir: returns only the names. The attributes passed to
  `filler` and the `offset` and `fi` arguments are not modelled.
- The constant `SIZE` and the variable `need_block` (lfs.c:265) are never
  used by the source and are not modelled.
- In `lfs_free_inode` the `for` loop breaks at the first EMPTY slot. The
  model states this as the loop guard.
