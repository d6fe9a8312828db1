# NaiveFS, verified

NaiveFS is a small ext2-like file system: inodes whose blocks hang off 12 direct, one single, one
double and one triple indirect pointer; block groups with bitmaps; an LRU block cache; directories
as append-only records; a directory entry cache of circular sibling lists; and open files with many
handles that read and write under a two-phase lock.  This project models those parts in Dafny and
proves that each representation agrees with something simple: a list of blocks, a sequence of bytes,
a set of allocated numbers, a plain memory, a finite map, a tree of names.

The model describes one mount of a fresh volume.  Disk accesses do not fail.  Constants (4096, 1024,
12, 32768, 33794, 255) and 16- and 32-bit wrap-around are those of the source.

## Structure

| file | what it holds |
|---|---|
| `Bytes.dfy`, `BlockTree.dfy` | blocks as bytes and words; the pointer tree of an inode and what its decoding `Loc` yields |
| `Volume.dfy` | inodes and the file system object: appending blocks to files, ownership of every block, dirty marks |
| `Handle.dfy` | `bf_seek`, `seek`, `next_block` of a file handle, against the tree |
| `FileBytes.dfy`, `OpenFile.dfy`, `Writers.dfy` | a file as bytes, reading and writing through handles, any interleaving of writers |
| `Walk.dfy`, `Deletion.dfy` | the walk over all blocks of an inode, and what deleting frees |
| `Bitmaps.dfy`, `Groups.dfy`, `Allocator.dfy`, `Layout.dfy` | bitmaps, block groups, super block counters and new groups, disk offsets |
| `BlockCache.dfy`, `CacheLaws.dfy` | the linked LRU list, map and pool as heap objects; transparency and residency over whole runs |
| `Rings.dfy`, `PathCache.dfy`, `DentryCache.dfy` | circular lists as values; the directory entry cache as a value, paths with their rings; the same cache as a tree of linked heap nodes |
| `DentryBlock.dfy`, `Directory.dfy` | records as bytes, and directories over the blocks of an inode as finite maps |
| `Names.dfy`, `Paths.dfy`, `Namespace.dfy` | link counts, paths and the path cache as values; what each operation does to every path; lookup, create, link, unlink and runs of them over the directories |
| `Composition.dfy` | the bitmap allocator behind the volume, and the cache behind its block contents |

Methods that change state are specified by functions of the old state (`Loc`, `Overlay`, `Visited`,
`State`, `Created`, `Unlinked`, ...), and the lemmas are about those functions.  `hide` statements
only keep proofs quick.

Where the source does not do what it is evidently meant to do, the model follows the source, one
lemma gives a concrete failing case, and an if-and-only-if says when the intended behaviour holds:

- `seek` in the triple range takes the last index from the wrong digit: `SeekTripleFails`, `SeekLandsExact`, `SeekTripleExact`.
- A write past the end can find no block for its target: `BoundaryHasNoTarget`, `OpenFile.Extend` with `HasTarget`.
- A read is not cut at the size in its first block: `ReadPastTheEnd`, `ReadLenExact`.
- A stop request inside an indirect range does not end the walk: `StopIgnored`, `StopHonoured`.
- A zero block enters the cache clean: `CleanZeroLost`, `FreshView`; `OrderlyRun` says which runs are not harmed.
- A new entry of the triple root marks another block dirty: `WrongMarkLost`, `EditView`; `FileSystem.AppendBlock` says exactly when it happens.
- An inode from a new group starts without its link: `NewGroupDangles`, `FreedWithLastName`.
- Link counts wrap at 2^16: `WrapDangles`, `LinkedGood`, `FreedWithLastName`.
- Removing the second node of a ring breaks the ring: `SecondNotRemovable`, `Node.Remove`, `DentryCache.Remove`.
- A path below a regular file is looked up in the file's data instead of being refused: `Namespace.Lookup`, with `FileParent` and `DataScan`.
- Closing a file writes its old link count back: `CommitLosesLink`, `OpenClose`.
- Deleting a file frees its data blocks only, so all of its blocks become free if and only if it has at most 12: `DeleteFile`.
- Inode-table block 1023 and data block 0 of a group share an offset: `TableMeetsData`, `OnlyOverlap`.
- Descriptor offsets wrap from group 32 on, and the new-group index is off from there: `NoWrap`, `NewGroupForBlocks`.
- The last inode number of group 0 is passed over: `LastInodeSkipped`, `SuperBlock.AllocInode`.
- Freeing something that is free unbalances the counters: `SuperBlock.FreeBlock`, `SuperBlock.FreeInode`.
- The comment on `IBLOCK_14` and the layout comment name one block more than the constants do; the model uses the constants.

## Model

| member | source | states |
|---|---|---|
| `Bytes.PutWord` | src/filesystem.cpp:676-677 | a stored word reads back, and all other words of the block are untouched |
| `BlockTree.TreeFrame` | src/operation/operation.cpp:99-128 | a file's whole pointer tree is unaffected by any change that leaves its interior blocks alone |
| `BlockTree.AttachChild` | src/filesystem.cpp:676-719 | storing a free block in a free slot of an attached interior block adds exactly that position to the tree, and every other position decodes as before |
| `BlockTree.CountBounded` | src/filesystem.cpp:797-797 | a file cannot have more blocks than there are block numbers, so the sector count never wraps |
| `BlockTree.TriplePlace` | src/operation/operation.cpp:118-120 | the reader's three indices of a block in the triple range are its base-1024 digits |
| `BlockTree.TripleCounts` | src/filesystem.cpp:729-769 | the writer's `num_indirects`, `inner_index` and `num_double_indirects` name the same digits as the reader's |
| `Volume.FileSystem.AllocBlock` | src/filesystem.cpp:616-652 | hands out some block number that is not allocated, zeroed, or fails without change; the refusals are counted |
| `Volume.FileSystem.AppendDirect` | src/filesystem.cpp:666-667 | the new block becomes block n of the direct range |
| `Volume.FileSystem.AppendSingle` | src/filesystem.cpp:668-679 | the new block becomes block n of the single-indirect range; on failure the n blocks are as before |
| `Volume.FileSystem.AppendDouble` | src/filesystem.cpp:680-720 | the same in the double-indirect range, with a new leaf at each multiple of 1024 |
| `Volume.FileSystem.AppendTriple` | src/filesystem.cpp:721-795 | the same in the triple-indirect range, with new second-level blocks and leaves; the triple root gains its entry without being marked dirty |
| `Volume.FileSystem.AppendBlock` | src/filesystem.cpp:654-804 | fails if and only if an allocation of the call was refused, on every level, and then exactly one was; otherwise, for every block count, the decoded list is the old list plus the new block and the contents grow by a zero block; every live position stays; other files keep lists and contents; the allocated blocks that no file owns stay the same; the new data block is not dirty, and all other changed blocks are, apart from the triple root exactly at a triple entry, whose mark stays as it was and is absent when the root is new |
| `Volume.FileSystem.PutData` | src/filesystem.cpp:538-581 | copying into data block k changes that block of that file only and marks it dirty |
| `Volume.FileSystem.FreeBlock` | src/filesystem.cpp:849-871 | frees exactly an allocated block |
| `Volume.BlocksDistinct` | src/filesystem.cpp:616-804 | in every valid state two live positions, data or indirect, of any files hold the same block only if they are the same position, and all are allocated |
| `Handle.FileStatus.BfSeek` | src/operation/operation.cpp:99-128 | succeeds exactly when the block is in the tree and its path is allocated, and then holds what the tree holds |
| `Handle.FileStatus.UpdCache` | include/operation.h:184-190 | a flagged handle re-reads its position from scratch, an unflagged one is left alone |
| `Handle.FileStatus.NextBlock` | src/operation/operation.cpp:3-61 | one step from a coherent position lands on the coherent position of the next block across every change of level |
| `Handle.FileStatus.NextTriple` | src/operation/operation.cpp:41-57 | the step inside the triple range re-reads exactly the levels whose digit rolled over |
| `Handle.FileStatus.Advance` | src/operation/operation.cpp:3-61 | k steps succeed if and only if every block on the way can be reached, and then land on the one coherent position k blocks on, which is where `bf_seek` lands |
| `Handle.FileStatus.Seek` | src/operation/operation.cpp:63-97 | agrees with `bf_seek` for every target up to IBLOCK_13 from every usable position, also where the 32-bit difference to the old position wraps; errors of low targets are dropped; the triple range lands on `SeekLands` |
| `Handle.FileStatus.SeekDouble` | src/operation/operation.cpp:66-77 | reusing the cached leaf is right exactly because equal first digits place the old position under the same leaf |
| `Handle.CoherentUnique` | src/operation/operation.cpp:63-128 | two coherent positions at one block agree on its number and on all ids of its range |
| `Handle.CursorKept` | src/operation/operation.cpp:63-97 | a coherent handle stays coherent while other writers append |
| `Handle.SeekLandsExact` | src/operation/operation.cpp:86-94 | in the triple range `seek` reads the slot of its target if and only if it re-reads the path, does not move, or the last two digits of the target agree, for every target and every position |
| `Handle.SeekTripleExact` | src/operation/operation.cpp:86-94 | so in the triple range `seek` finds the right block if and only if `SeekRight` holds, where it lands within the file |
| `Handle.SeekTripleFails` | src/operation/operation.cpp:88-89 | one step forward from the first triple block reads that block again |
| `Handle.WrapOutside` | src/operation/operation.cpp:79-79 | a wrapped 32-bit difference never looks like a block of the triple range |
| `FileBytes.FlatPut` | src/operation/operation.cpp:203-203 | a copy into one block is a splice of the whole file |
| `FileBytes.SpliceIsOverlay` | src/operation/operation.cpp:186-241 | splicing into a file whose bytes beyond the size are zero gives the overlay with zero fill, and keeps that invariant |
| `FileBytes.OverlayAppend` | src/operation/operation.cpp:183-183 | a write at the size is an append |
| `OpenFiles.NextBoundaryAbove` | src/operation/operation.cpp:186-189 | the next block boundary is above the size if and only if the size is not in the last block of the 32-bit range |
| `OpenFiles.OpenFile.NewHandle` | include/operation.h:113-113 | a new handle joins flagged and at block 0, the bytes are untouched |
| `OpenFiles.OpenFile.Extend` | src/operation/operation.cpp:186-194 | fails if and only if an allocation was refused; growth adds only zeros, never passes the offset, and otherwise ends at a size and block count given in closed form, with the target block there if and only if `HasTarget`, a condition on size, block count and offset |
| `OpenFiles.BoundaryHasNoTarget` | src/operation/operation.cpp:186-195 | a write at offset 4096 of a 100-byte file gets no block, one at 4097 does |
| `OpenFiles.StepsDone` | src/operation/operation.cpp:186-194 | where the growth loop stops, as arithmetic on size, count and offset |
| `OpenFiles.OpenFile.WriteExclusive` | src/operation/operation.cpp:178-241 | the file becomes the overlay of the bytes written and the size never shrinks; no-space and a shorter write are answered if and only if an allocation was refused, so a write with a target block and no refusal writes the whole buffer, adds exactly the blocks it needs and flags every handle; without a refusal it has no target block exactly when `HasTarget` says so; a failure before the target leaves zeros |
| `OpenFiles.AppendFits` | src/operation/operation.cpp:186-241 | appending to a file with no block to spare leaves it with exactly the blocks its new size needs |
| `OpenFiles.OpenFile.Overwrite` | src/operation/operation.cpp:243-279 | a write inside the file is the overlay of the whole buffer |
| `OpenFiles.OpenFile.UpdAll` | src/operation/operation.cpp:282-286 | all handles are flagged, nothing else changes |
| `OpenFiles.OpenFile.CopyToBuf` | src/operation/operation.cpp:130-157 | returns exactly the bytes of the file from the offset on, as many as `ReadLen` says, and zeros where the first chunk runs past the size |
| `OpenFiles.ReadLenReach` | src/operation/operation.cpp:142-156 | a read that starts within the file ends where it was asked to, or at the end of the file or of its first block if that is later, whichever comes first |
| `OpenFiles.ReadLenExact` | src/operation/operation.cpp:142-150 | a read is cut at the size if and only if it starts beyond it, ends within it, or its first block lies within it |
| `OpenFiles.ReadPastTheEnd` | src/operation/operation.cpp:142-142 | reading 10 bytes of a 3-byte file yields 10 bytes |
| `Writers.Session.DoBegin` | src/operation/operation.cpp:161-178 | the shared phase overwrites in place exactly when the range lies inside the file, and otherwise leaves the request pending |
| `Writers.Session.DoCommit` | src/operation/operation.cpp:180-241 | the exclusive phase writes where the size found then puts it: the whole buffer when no allocation is refused and there is a target block, and otherwise some of it, or zeros before the target |
| `Writers.Session.DoRead` | src/operation/operation.cpp:130-157 | a read sees the file as the log so far replays it, at the offset and of the length `ReadLen` gives, and changes nothing else |
| `Writers.Session.Run` | src/operation/operation.cpp:130-281 | every schedule of reads and write phases by any number of handles follows the simple view phase by phase; every read returns the log replayed up to then; the file is at the end the logged writes replayed in lock order, every append at the end it found, and is not shorter than before |
| `Writers.SizeGrows` | src/operation/operation.cpp:205-234 | the size never shrinks over a run |
| `Writers.AppendsDisjoint` | src/operation/operation.cpp:182-183 | any two appends of a run occupy disjoint ranges in lock order |
| `Writers.AppendRun` | src/operation/operation.cpp:159-241 | in every run in which all requests are appends, the file is at all times the concatenation of what was written, in lock order |
| `Writers.WholePhase` | src/operation/operation.cpp:178-241 | a commit during which no allocation is refused logs its buffer whole at its place, or goes astray if and only if there is no target block |
| `Writers.WholeAppendRun` | src/operation/operation.cpp:159-241 | in every run in which all requests are appends and no allocation is refused, no write goes astray and the file is at all times what it was followed by the whole buffers in lock order |
| `Writers.SharedBytes` | src/operation/operation.cpp:243-279 | however the block-sized chunks of concurrent writes inside the file interleave, the size stays and every byte is the old one if no writer touches it, and otherwise the one some writer put there |
| `Writers.SharedDisjoint` | src/operation/operation.cpp:243-279 | writers whose ranges do not meet leave the file as if they had run one after the other |
| `Writers.ChunksMerged` | src/operation/operation.cpp:253-276 | the chunk loop cuts a write at block boundaries, so any interleaving of the loops of several writers is such a merge |
| `Walk.VisitLeaf` | src/filesystem.cpp:418-435 | an indirect block's entries are visited in order up to the first stop |
| `Walk.VisitLeaves` | src/filesystem.cpp:447-453 | the double level visits the leaves in file order with the shared counter meeting the count |
| `Walk.VisitMids` | src/filesystem.cpp:455-460 | the triple level visits all second-level blocks, the counter ends at exactly n |
| `Walk.VisitInodeBlocks` | src/filesystem.cpp:437-502 | visits exactly `Visited` of the decoded list; a visitor that never stops sees every block once in file order |
| `Walk.VisitedExact` | src/filesystem.cpp:437-502 | for every visitor, block k is visited if and only if no earlier direct block and no earlier block of its own leaf asked to stop, and the visits are in file order |
| `Walk.VisitedAll` | src/filesystem.cpp:437-502 | without a stop request the visited list is the block list |
| `Walk.StopHonoured` | src/filesystem.cpp:447-474 | the walk ends at the first stop request if and only if that is in a direct block or in the last leaf |
| `Walk.StopIgnored` | src/filesystem.cpp:447-453 | a concrete walk that goes on after a stop request |
| `Walk.VisitedSome` | src/filesystem.cpp:437-502 | whatever the visitor answers, no block is visited twice, and a block to stop at is visited if there is one |
| `Deletion.DeleteFile` | src/filesystem.cpp:301-309 | exactly the data blocks become free, other files are untouched, indirect blocks stay allocated and unused; all blocks of the file become free if and only if it has at most 12 |
| `Deletion.DeleteDirectory` | src/filesystem.cpp:289-300 | deleting a directory without live records goes on to no other inode, frees no block and leaves other files untouched |
| `Directories.Children` | src/filesystem.cpp:289-300 | the walk of a deletion over a directory goes on to exactly the inodes of its live records, in order, and to none if and only if there is no live record |
| `Bitmaps.Set` | src/utils/bitmap.cpp:5-5 | sets exactly bit i of the map |
| `Bitmaps.Clear` | src/utils/bitmap.cpp:9-9 | clears exactly bit i of the map |
| `Bitmaps.SignedBits` | src/utils/bitmap.cpp:15-18 | the signed value has the bits of the unsigned word |
| `Bitmaps.LowestClear` | src/utils/bitmap.cpp:15-20 | the loop of arithmetic shifts ends at the lowest clear bit |
| `Bitmaps.Find` | src/utils/bitmap.cpp:11-26 | returns the least clear bit below the size, or -1 if and only if there is none |
| `Groups.FullSet` | src/block.cpp:59-67 | a group has no clear bit if and only if it counts all bits set |
| `Groups.BlockGroup.AllocBlock` | src/block.cpp:145-155 | a nonzero free count guarantees success, the least free block is taken, free count plus set bits is constant |
| `Groups.BlockGroup.AllocInode` | src/block.cpp:130-143 | the same for inodes |
| `Groups.BlockGroup.FreeBlock` | src/block.cpp:167-173 | frees exactly an allocated block and keeps the sum |
| `Groups.BlockGroup.FreeInode` | src/block.cpp:157-165 | frees exactly an allocated inode and keeps the sum |
| `Allocator.NewGroupForBlocks` | include/block.h:86-95 | out of blocks, the computed index is the number of groups if and only if there are at most 32 groups or enough inodes are in use |
| `Allocator.NewGroupForInodes` | include/block.h:86-95 | out of inodes, the computed index is the number of groups because group 0 counts one inode short, and would skip a group otherwise |
| `Allocator.BlocksExhausted` | src/filesystem.cpp:616-652 | whenever all groups are out of blocks the counters name a group that does not exist |
| `Allocator.InodesExhausted` | src/filesystem.cpp:583-614 | whenever all groups are out of inodes the counters name a group that does not exist |
| `Allocator.GlobalIndex` | src/filesystem.cpp:611-647 | group and position are recovered from a global number |
| `Allocator.SuperBlock.constructor` | src/block.cpp:5-36 | the counters of a fresh volume balance with one set inode bit |
| `Allocator.SuperBlock.AllocBlockGroup` | src/filesystem.cpp:806-824 | the group made has a new index and is empty |
| `Allocator.SuperBlock.AllocBlock` | src/filesystem.cpp:616-652 | the least unused number of all groups becomes used and nothing else changes, the counters stay balanced, and a group is made if and only if none has room |
| `Allocator.SuperBlock.AllocInode` | src/filesystem.cpp:583-614 | an unused number becomes used and nothing else changes; every smaller number is in use, or is in a group that counts short and reports none; it is the least unused one if and only if group 0 counts a free inode; it comes from a new group if and only if no group has a free one |
| `Allocator.LastInodeSkipped` | src/filesystem.cpp:583-614 | group 0 with its last inode unused counts none, so the next inode comes from a new group |
| `Allocator.SuperBlock.FreeBlock` | src/filesystem.cpp:849-871 | exactly that block becomes free, and the counters balance afterwards if and only if it was allocated |
| `Allocator.SuperBlock.FreeInode` | src/filesystem.cpp:826-847 | exactly that inode becomes free, and the counters balance afterwards if and only if it was allocated |
| `Composition.AllocBlock` | src/filesystem.cpp:616-652 | the super block's allocation meets what the volume asks for: the least number not in use, with zero contents; bitmaps and volume stay in agreement; a group is made if and only if none has room |
| `Composition.FreeBlock` | src/filesystem.cpp:849-871 | the same for freeing; it succeeds if and only if the volume had the block |
| `Composition.Serve` | src/filesystem.cpp:616-871 | any run of allocations and frees keeps bitmaps, counters and volume in agreement; each allocation adds the least number that was free, each free takes one away, and the number of allocated blocks is theirs; the run ends early only at a free of a block that is not allocated, or with all groups made and full |
| `Composition.AllocInode` | src/filesystem.cpp:583-614 | a number that no inode has, the least such if and only if group 0 counts a free inode; it is reported as coming from a new group if and only if every group has zero free inodes |
| `Composition.WordIsEdit` | src/filesystem.cpp:676-679 | storing a word of an indirect block is the change of four cached bytes that the cache laws are about |
| `Layout.NoWrap` | src/filesystem.cpp:814-815 | descriptor offsets are right if and only if the group number is below 32 |
| `Layout.OnlyOverlap` | src/block.cpp:175-182 | two places of a volume of 32 groups share an offset if and only if they are the last inode-table block and the first data block of one group |
| `Layout.TableMeetsData` | src/block.cpp:175-182 | those two do share it, in every group |
| `Layout.GroupOrder` | src/filesystem.cpp:806-824 | super block, then per group the inode bitmap, the block bitmap, the inode table and the data blocks follow each other block by block, the data starting on the last block of the table, and groups are one group size apart |
| `BlockCaches.BlockCache.Detach` | include/cache.h:43-46 | the list stays linked both ways without the node, the order of the others is kept |
| `BlockCaches.BlockCache.Attach` | include/cache.h:61-66 | the node becomes the first, the list stays linked both ways |
| `BlockCaches.BlockCache.Evict` | src/cache.cpp:47-57 | the least recent node goes back to the pool, its block to disk when dirty |
| `BlockCaches.BlockCache.Insert` | src/cache.cpp:41-82 | the value of the cache is `Inserted`, with list, map and pool partitioning the nodes |
| `BlockCaches.BlockCache.Get` | src/cache.cpp:84-101 | returns the cached block exactly when present and makes it the most recent |
| `BlockCaches.BlockCache.Remove` | src/cache.cpp:103-115 | the value of the cache is `Removed`: the block leaves list and map, written back when dirty |
| `BlockCaches.BlockCache.Modify` | src/cache.cpp:117-121 | marks exactly that block dirty if it is cached |
| `BlockCaches.BlockCache.Edit` | src/filesystem.cpp:676-679 | writing through a held block and then marking a block: the value of the cache is `Edited`, whichever block is marked |
| `BlockCaches.BlockCache.Flush` | src/cache.cpp:20-28 | every dirty block is written and clean afterwards, the order of use stays |
| `BlockCaches.BlockCache.GetBlock` | src/filesystem.cpp:538-581 | returns what a reader sees, and leaves the cache as `Accessed` says |
| `BlockCaches.BlockCache.KeysAre` | include/cache.h:68-73 | list order, map and pool: each cached number once, list and pool together are all nodes |
| `CacheLaws.RemovedView` | include/cache.h:48-59 | taking a block out is invisible if and only if it is dirty or agrees with the disk |
| `CacheLaws.AccessView` | src/filesystem.cpp:538-581 | a read changes no view, a write changes it for its block as the copy says, whatever is evicted |
| `CacheLaws.FreshView` | src/filesystem.cpp:649-649 | a new block is seen at once, and the cache stays faithful if and only if it is entered dirty or equals the disk |
| `CacheLaws.CleanZeroLost` | src/filesystem.cpp:649-649 | for every capacity, a block that is made, written, freed and made again reads as zeros until as many other blocks are read as fit, and then as what was written before |
| `CacheLaws.EditView` | src/filesystem.cpp:676-679 | a write through a held block is seen at once by all readers, and the cache stays faithful if and only if that block is the one marked, was dirty before, or the write agrees with the disk |
| `CacheLaws.WrongMarkLost` | src/filesystem.cpp:748-750 | a new word of a clean root is lost at the next eviction when another block is marked in its place |
| `CacheLaws.FlushView` | src/cache.cpp:20-28 | a full flush is invisible, and the disk then holds what every reader sees |
| `CacheLaws.StepMarks` | src/cache.cpp:20-121 | after a flush no block is marked; an access marks its own block if it writes and otherwise none, a write through a held block marks the block it names, and every other mark stays |
| `CacheLaws.CacheInvisible` | src/cache.cpp:20-121 | over every run of accesses, new blocks, writes through held blocks, frees and flushes the cache behaves like a plain memory, and a final flush makes the disk that memory |
| `CacheLaws.StaysResident` | src/cache.cpp:20-121 | over every run of operations that does not free it, a block stays cached while the blocks ahead of it and those used since are together fewer than the capacity |
| `CacheLaws.HeldBlockSafe` | src/filesystem.cpp:664-795 | after a block is fetched or made, a write through it is safe at the end of every run that uses fewer than capacity other blocks and does not free it |
| `CacheLaws.HeldBlockSoon` | src/filesystem.cpp:664-795 | in particular after any run of fewer operations than the capacity, which is what `alloc_block` relies on |
| `CacheLaws.OrderlyRun` | src/cache.cpp:20-121 | from a new volume, a run in which no block number is made twice, and held blocks are changed and marked before capacity other blocks are used, reads and leaves behind what a memory of zeros would; the condition is on the list of operations alone |
| `CacheLaws.PerformAll` | src/cache.cpp:20-121 | the linked list, map and pool carry out every run as the cache value does, also those that lose data, as long as changed blocks are still cached |
| `CacheLaws.PerformOrderly` | src/cache.cpp:20-121 | the same of the linked cache |
| `DentryCaches.Node.Insert` | src/cache.cpp:133-152 | the children stay one closed cycle with distinct names, the new one behind the entry point and the new entry point |
| `DentryCaches.Node.Lookup` | src/cache.cpp:154-176 | finds the child of that name if and only if there is one, and rotates the cycle to it |
| `DentryCaches.Node.Remove` | src/cache.cpp:178-201 | the node of that name is unhooked; the other children form a closed cycle if and only if it was not right behind the entry point, or was alone; otherwise a child still leads to it |
| `DentryCaches.Node.LookupAndRemove` | src/cache.cpp:154-201 | after a lookup of the name, exactly that child goes and the others stay a closed cycle in order |
| `Rings.EnteredBehind` | src/cache.cpp:133-152 | a child that enters a ring comes right behind the entry point and before what followed that, and all others follow each other as before |
| `Rings.RotatedBehind` | src/cache.cpp:154-176 | moving the entry point does not change which child follows which |
| `Rings.TakenBehind` | src/cache.cpp:178-201 | what followed a removed child becomes the entry point and follows what was before that child; all others follow each other as before |
| `DentryCaches.DentryCache.constructor` | src/cache.cpp:123-126 | the new cache is the root alone, `EMPTY` as a value |
| `DentryCaches.DentryCache.Insert` | src/cache.cpp:133-152 | the tree gains exactly the new node, every ring of the tree stays closed, and the cache as a value is `Missed` |
| `DentryCaches.DentryCache.Lookup` | src/cache.cpp:154-176 | returns the node if and only if the path is cached, with the inode it is cached with; every ring stays closed, and the cache as a value is `Hit` |
| `DentryCaches.DentryCache.Release` | src/cache.cpp:203-213 | frees exactly the nodes below the given one, each once, and reads no freed node |
| `DentryCaches.DentryCache.Remove` | src/cache.cpp:178-201 | exactly the node and its subtree leave the tree and are freed; the rings stay closed if and only if the name is removable, and then the cache as a value is `Removed`; otherwise the ring leads to a freed node |
| `DentryCaches.DentryCache.Destroy` | src/cache.cpp:128-131 | every node still in use is freed, each once |
| `DentryCaches.DentryCache.ViewOk` | src/cache.cpp:123-213 | in every valid state of the heap the rings hold exactly the cached children and every cached path has its parent cached, as the path walk presumes |
| `PathCaches.HitRinged` | src/cache.cpp:154-176 | a hit moves one child to the front of its ring, changes nothing else that is cached, and all rings still hold exactly the cached paths |
| `PathCaches.MissedRinged` | src/cache.cpp:133-152 | the same for a path that enters the cache |
| `PathCaches.RemovedRinged` | src/cache.cpp:178-213 | a removal takes out exactly the path and all below it, and all rings still hold exactly the cached paths |
| `PathCaches.SecondNotRemovable` | src/cache.cpp:186-192 | after lookups of two siblings, the first can be removed only after another lookup |
| `DentryBlocks.ParseHeld` | include/block.h:177-194 | parsing a block of records followed by zeros yields those records, where they start and how much is used, for every list of records that fits |
| `DentryBlocks.RecordLayout` | include/ext2/dentry.h:14-20 | a record is inode, length of the whole, name length and type at bytes 0, 4, 6 and 7, and the name from byte 8 on |
| `DentryBlocks.Open` | include/block.h:177-194 | on every block, records or not, the parse loop ends within the block with the records, starts and used size that `Parse`, `Starts` and `EndOf` give |
| `DentryBlocks.AppendRec` | include/block.h:198-208 | writing a record behind the others gives a block of the old records plus the new one |
| `DentryBlocks.EraseRec` | src/filesystem.cpp:337-338 | zeroing the name length of one record leaves all other records as they are |
| `DentryBlocks.AddEntry` | src/filesystem.cpp:157-182 | adding a record under a free name is a map update and keeps names unique |
| `DentryBlocks.EraseEntry` | src/filesystem.cpp:330-346 | erasing a record removes one name from the map |
| `Directories.Scan` | src/filesystem.cpp:260-281 | over all blocks, reports the name if and only if a live record has it, its inode, and the last block |
| `Directories.Find` | src/filesystem.cpp:214-232 | on every inode the scan of a path walk finds what `Scanned` gives; on a directory that is the live record of the name if and only if there is one, although a stop request may be ignored |
| `Directories.EmptyScan` | src/filesystem.cpp:214-232 | a file without blocks never yields a match |
| `Directories.DataScan` | src/filesystem.cpp:214-232 | a file whose data has the bytes of a record yields that record |
| `Directories.EraseRecord` | src/filesystem.cpp:330-349 | exactly the live record of that name is erased, its block is marked dirty, other files are untouched; nothing changes if the name is absent |
| `Directories.AddRecord` | src/filesystem.cpp:157-182 | fails if and only if an allocation was refused, and then the directory is unchanged; otherwise the records are the old ones plus the new one, the directory is one block longer if and only if it was full, and every changed block is dirty |
| `Directories.FullExact` | src/filesystem.cpp:157-182 | full means that no block can hold the records of the last block and one more of that length |
| `Directories.IsEmpty` | src/operation/dir.cpp:81-92 | reports empty if and only if no live record is left |
| `Names.DirectoryPath` | src/filesystem.cpp:383-383 | different paths lead to different directories, because directories are never linked |
| `Names.ResolveStep` | src/filesystem.cpp:200-253 | one component of a walk is found exactly as the live record of that name in the directory reached says, missing exactly if there is none, and refused exactly if what was reached is a file |
| `Names.ResolveFails` | src/filesystem.cpp:184-258 | a walk reports not-a-directory if and only if some prefix of the path leads to a file, and not-found if and only if some prefix leads to a directory without a record of the next name |
| `Names.CreatedCounted` | src/filesystem.cpp:143-149 | creating keeps link counts equal to the number of names modulo 2^16, one less for an inode from a new group |
| `Names.LinkedGood` | src/filesystem.cpp:404-412 | a link keeps the name space invariant if and only if the file had fewer than 2^16 - 1 names |
| `Names.UnlinkedShape` | src/filesystem.cpp:330-366 | unlinking leaves a dangling record if and only if the inode was freed with names left |
| `Names.UnlinkedCounted` | src/filesystem.cpp:358-366 | link counts stay right and the inode is freed if and only if its count comes to zero |
| `Names.FreedWithLastName` | src/filesystem.cpp:358-366 | the inode is freed exactly with its last name if and only if a condition on its number of names and on its group holds |
| `Names.UnlinkedGood` | src/filesystem.cpp:313-371 | with initialised inodes of fewer than 2^16 names, the invariant is kept and the inode is freed if and only if the record was its only one |
| `Names.NewGroupDangles` | src/filesystem.cpp:600-603 | an inode from a new group with two names is freed when one of them goes |
| `Names.WrapDangles` | src/filesystem.cpp:360-361 | an inode with 2^16 + 1 names is freed when one of them goes |
| `Names.StepGood` | src/filesystem.cpp:114-416 | every step that takes no inode from a new group and gives no file its 2^16th name keeps the invariant of the name space |
| `Names.GoodRun` | src/filesystem.cpp:114-416 | so does every run of such steps, at every point |
| `Paths.StepPaths` | src/filesystem.cpp:114-416 | what a sane step does to every path at once: a created path leads to a new empty inode of the kind asked for, a linked one where its source leads, a removed one and all below it nowhere; below a new file everything is not-a-directory; every other path leads where it did or fails as it did |
| `Paths.PathKept` | src/filesystem.cpp:114-416 | over every sane run a path leads where it did unless some successful step made or removed a name on it |
| `Names.WalkedExact` | src/filesystem.cpp:210-212 | where the walk answers not-found below a file, not-a-directory belongs; `Namespace.Lookup` shows that the source walks this way |
| `Names.CreateAnswer` | src/filesystem.cpp:114-142 | where the parent of the last component is looked up rightly: duplicate if and only if the path exists, not-a-directory if and only if it runs through a file, not-found if and only if its directory does not exist, success if and only if the directory exists and the name is free |
| `Names.LinkAnswer` | src/filesystem.cpp:373-402 | the answer to a link in the same terms: what source and target lead to decide each error, and success is exactly an existing file and a free name |
| `Names.UnlinkAnswer` | src/filesystem.cpp:313-349 | success, not-found and not-a-directory if and only if the path is found, missing, or runs through a file |
| `Names.RemoveAnswer` | src/operation/dir.cpp:73-98 | likewise, and not-empty if and only if some name leads on from the inode; the root cannot be removed |
| `Names.LookupAnswer` | src/filesystem.cpp:184-258 | each answer of a lookup if and only if the walk ends that way |
| `Names.FileParent` | src/filesystem.cpp:210-212 | an empty file f and the path f/x |
| `Names.OpenClose` | include/operation.h:114-120 | while an inode exists, writing back the copy taken when it was opened keeps the name space invariant if and only if as many links to it were made meanwhile as names of it were taken |
| `Names.OpenKept` | src/operation/meta.cpp:153-175 | an inode whose names are not taken while it is open exists all the while, so any link made meanwhile is lost |
| `Names.CommitExact` | include/operation.h:114-120 | writing a link count back keeps the invariant if and only if it is the current count |
| `Names.CommitLosesLink` | src/filesystem.cpp:411-412 | open, link, close, unlink: the inode is freed while a record still names it |
| `Names.CacheCut` | src/filesystem.cpp:351-355 | after unlinking, every cached path outside the removed subtree still leads to the inode it is cached with |
| `Names.CacheGrows` | src/filesystem.cpp:177-178 | creating and linking leave every cached path right |
| `Namespaces.Namespace.LookupStep` | src/filesystem.cpp:200-253 | one component, hit or miss, yields what the directory records say, or what the scan of a file's data says below a file, with the current inode loaded when it is needed |
| `Namespaces.Namespace.Lookup` | src/filesystem.cpp:184-258 | for every path, returns what the walk without a cache returns, which is what the directories say, error kinds included, if and only if the parent of the last component is not a file; leaves the cache right unless file data was taken for a record, which happens exactly if `Misled`; afterwards exactly the components found are cached besides what was, each is brought to the front of its ring, and no other ring moves |
| `Namespaces.Namespace.AllocInode` | src/filesystem.cpp:583-614 | some free number, taken from no name, or a refusal, which is counted; so is an inode from a new group |
| `Namespaces.Namespace.Create` | src/filesystem.cpp:114-155 | for every path the answer is the one the parent and the name determine (`CreateAnswer`), an allocation error if and only if an allocation was refused, or stray if and only if the lookup of the parent was misled; on success the new inode has that path as its only name and nothing else changed; on error the name space is unchanged; the invariant is kept if no inode came from a new group, which is counted |
| `Namespaces.Namespace.Link` | src/filesystem.cpp:373-416 | the answer is determined likewise (`LinkAnswer`), with an allocation error if and only if one was refused and stray if and only if a lookup was misled; on success both paths lead to the file and nothing else changed; the invariant is kept if and only if the file had fewer than 2^16 - 1 names |
| `Namespaces.Namespace.EraseName` | src/filesystem.cpp:325-349 | the record under that name is erased, seen from the whole name space |
| `Namespaces.Namespace.FreeInode` | src/filesystem.cpp:283-311 | the inode is free, every other inode keeps kind, links and records |
| `Namespaces.Namespace.Unlink` | src/filesystem.cpp:313-371 | the path is gone from directory and cache, one link with it, the inode freed at zero links; the cache stays right; the state is ready for more if and only if no record dangles |
| `Namespaces.Namespace.Remove` | src/operation/dir.cpp:73-98 | for every path: the lookup before the unlink puts the name at the front of its ring; a directory is removed only when empty; the answer is determined by the records |
| `Namespaces.Namespace.Step` | src/filesystem.cpp:114-416 | one request, whatever its path, answers and acts as the simple view says; it is not sane only in the three ways described, a creation exactly when its inode came from a new group; refusals and allocation errors agree in number |
| `Namespaces.Namespace.Run` | src/filesystem.cpp:114-416 | every run of lookups, creations, links and removals follows the simple view step by step; as many allocation errors are answered as allocations were refused; as long as no inode comes from a new group, no file gets its 2^16th name and no file data is taken for a record, link counts are the numbers of names, no record names a free inode, every inode has a name, and the cache agrees with the directories |

## Left out

- FUSE entry points, permission checks, timestamps, error numbers, logging and options: thin glue over the core; `Remove` only takes the order of calls from them.
- Symbolic links, rename, truncate, statfs: rename is a chain of link and unlink calls, the others are stubs or outside the block map.
- fsync: `flush(inode_index)` compares an inode number with block numbers, so there is no per-file durability to state.
- Remounting: allocation looks only at groups that are loaded, so the model is one mount of a fresh volume.
- Races on the LRU list: `get_block` is one atomic step and contents are held by block number (`HeldBlockSafe` says how long a held block stays cached within one thread); the second cache lookup of `get_block`, which loses the dirty flag when another thread loads the block in between, is therefore not modelled.
- Path parsing: a path is a sequence of names of 1 to 254 bytes without a zero byte.
- The other fields of the inode copy of an open file: `OpenClose` follows the link count, the only one that the name space changes meanwhile.
- The directory entry cache's capacity: the source stores `max_size_` and never uses it.
- Deleting a directory that is not empty: callers check for emptiness; the recursive deletion ignores link counts of the children.
- Blocks and inodes lost by a failed allocation stay allocated; the model keeps them (`stray`, unowned blocks) and nothing reclaims them.
- `bg_used_dirs_count`, and the debug assertion that compares a block with zeros.
- Volume.FileSystem.AllocBlock: picks any free number and may refuse at any time, because nothing above depends on which or when beyond the count of refusals; `Composition.AllocBlock` says which number the bitmaps hand out, and that they refuse only with all groups made and full.
- Volume.FileSystem.AppendBlock: a failed call may leave reserved blocks allocated without an owner, and the contract does not say how many.
- Volume.FileSystem.FreeBlock: moves no counters; `Allocator.SuperBlock.FreeBlock` has them, and `Composition.FreeBlock` joins the two.
- Handle.FileStatus.NextBlock: excludes the last block of the tree, where the source would read one word past the end of the triple root.
- Handle.FileStatus.NextTriple: the same last block.
- Handle.SeekTripleExact: excludes a wrong landing past the end of the file, where the slot read has no specified contents; `SeekLandsExact` covers it as a slot.
- OpenFiles.OpenFile.Extend: the same sizes and offsets as `WriteExclusive`.
- OpenFiles.OpenFile.WriteExclusive: sizes in the last block of the 32-bit range and offsets beyond it are excluded, because the boundary computation wraps there (`NextBoundaryAbove`); what a write without a target block does to other blocks (`Stray`) is not followed.
- Writers.Session.DoCommit: requests that end below the last block of the 32-bit range, as in `WriteExclusive`.
- Writers.Session.Run: stops describing the file after a stray write.
- Walk.VisitInodeBlocks: the visitor's answer is a fixed function of the block; one that changes its mind during the walk is not covered.
- Allocator.SuperBlock.AllocBlock: a 32-group volume without a free block is excluded, since descriptor offsets wrap from group 32 on (`NoWrap`).
- Allocator.SuperBlock.AllocInode: the same bound on groups.
- BlockCaches.BlockCache.GetBlock: the refusal of a block that is not allocated is left out; all callers pass allocated blocks.
- CacheLaws.CacheInvisible: assumes that each step is safe, that is, a new block's place on disk holds zeros, which `FreshView` shows to be needed; `OrderlyRun` derives it for new volumes, and `CleanZeroLost` is the run where it fails.
- Deletion.DeleteFile: lists the blocks first and then frees them; the source frees each as it is visited, which does not change the walk because indirect blocks are not freed.
- Namespaces.Namespace.Run: ends at the first step that is not sane; after a lookup that took file data for a record (`StrayErr`) the cache holds a path that no directory has, and nothing is said about later steps.
- Directories.Find: a name that would run past the end of a block is taken as no match; the source compares with whatever bytes follow the block.
- Deletion.DeleteDirectory: directories with live records are left out; `Directories.Children` says which inodes the source goes on to.
- Namespaces.Namespace.FreeInode: of a file or an empty directory, as for `Unlink`.
- Namespaces.Namespace.Unlink: the target is a file or an empty directory, and not right behind the entry point of its ring; the lookup that the callers make first ensures the latter (`Remove`), and without it the ring would break.
- Namespaces.Namespace.AllocInode: any free number or a refusal, and whether a new group was needed is reported and counted only; `Composition.AllocInode` says which number and exactly when.
