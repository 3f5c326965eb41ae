# fs-with-permissions: a model of the file-system engine

The engine keeps a 64 MiB disk image behind a small Unix-like file system:
- one header;
- a block bitmap and an inode bitmap, one bit per unit;
- a table of 128 inodes;
- a data region of 512-byte blocks.

An inode has twelve direct block slots and a `next_inode` link. A link extends a directory or a file into a chain of inodes. A directory's blocks hold 36-byte entries, fourteen to a block: a NUL-terminated 32-byte name and a little-endian inode index. Index 0 marks a free entry. Every inode carries an owner uid and nine permission bits. The owner triplet or the "other" triplet decides access.

The model has two layers.

- **Value layer.** `Store.FsState` holds the engine's globals as values:
  - the two bitmaps as `seq<bv8>`;
  - the inode table as `seq<Inode>`;
  - the data region as a sequence of byte blocks;
  - `computed_data_blocks`.

  The modules `Store`, `Layout`, `Directory`, `Content`, `Links`, `Lifecycle` and `Resolve` define each C routine as a function on that state. The function returns the new state and an `Outcome` or `Result`. Lemmas state what the routines promise. Directory entries are encoded and decoded byte by byte (`DirEntry`). The directory routines are also stated against reference definitions that do not follow their loops:
  - `DirListing`: a directory's entries as one list in dirFindEntry's order, which dirFindEntry searches for the first match;
  - `DirWalk`: the `next_inode` chain as a list of inodes and the first-fit place along it, where dirAddEntry puts an entry, and the proof that dirFindEntry's listing then holds it;
  - `DirRemoval`: the blocks dirRemoveEntry's walk reads, in order, and the first of them holding the name, from which it removes.
- **Object layer.** `FileSystem.Fs` is a class:
  - the bitmaps and the inode table are arrays updated in place;
  - the disk is a sequence of blocks that `ReadBlock` and `WriteBlock` move whole.

  The modules `DirOps`, `ContentOps`, `LinkOps`, `LifecycleOps`, `PathOps` and `InitOps` hold the C loops as methods on an `Fs`. Every loop carries invariants, and every method is proved to end in its value-layer function's state and result, apart from the state after a Diverges result (see "## Left out").

Error reporting:
- The source reports every failure as -1. The model names the reason (`Error`), and no caller branches on a reason where the source could not.
- A walk along a `next_inode` chain or a symlink that the source would repeat for ever gives `Diverges` after a bound. The read stops on bytes copied rather than at the chain's end, so its bound counts only links in a row that copy nothing.
- An index the source would use outside the inode table gives `BadIndex` or no match, where the source has undefined behaviour.

## Model

| member | source | states |
|---|---|---|
| FsTypes.Truncate | fs_operations.c:261-262 | the stored name is the argument when it is shorter than 32 bytes, otherwise its first 31 bytes; always a prefix of the argument |
| FsTypes.Wrap32 | fs_operations.c:118 | a uint32 field assignment keeps the value modulo 2^32 and leaves in-range values unchanged |
| FsTypes.AsInt32 | fs.c:361-362 | `int block = blocks[i]` is the two's-complement reading of the uint32: negative exactly when the value is 2^31 or more |
| Bitmap.Set | fs.c:320 | after `bitmap[i/8] \|= 1 << i%8`, bit k is set exactly when k is i or it was set before |
| Bitmap.Clear | fs.c:333 | after `bitmap[i/8] &= ~(1 << i%8)`, bit k is set exactly when k is not i and it was set before |
| Bitmap.FirstClear | fs.c:315-324 | the scan returns -1 exactly when every bit in range is set; otherwise a clear bit with every earlier bit set |
| Store.AllocateBlock | fs.c:314-325 | allocateBlock changes only the block bitmap; -1 leaves the state alone; otherwise it returns a data block that was free |
| Store.AllocateBlockFirstFit | fs.c:315-323 | -1 only when every data block is used; otherwise the lowest free block, which is then the only newly used one |
| Store.AllocateBlockAt | fs.c:319-321 | with block i the first free one, allocateBlock returns i and sets exactly its bit |
| Store.AllocateBlockFull | fs.c:324 | with every data block used, allocateBlock returns -1 and changes nothing |
| Store.FreeBlock | fs.c:328-335 | freeBlock clears only bit b of a data block; any other argument changes nothing |
| Store.FreeBlockAt | fs.c:329-334 | a used data block has its bitmap byte cleared of its mask |
| Store.FreeBlockIdempotent | fs.c:332 | freeing a block twice is the same as freeing it once |
| Store.AllocateInode | fs.c:338-351 | allocateInode returns -1 with nothing changed, or a free inode whose record is zeroed, with the blocks and the disk untouched |
| Store.AllocateInodeFirstFit | fs.c:339-348 | -1 only when all 128 inodes are used; otherwise the lowest free inode, which is then the only newly used one |
| Store.AllocateInodeAt | fs.c:343-347 | with inode i the first free one, allocateInode returns i, sets its bit and zeroes its record |
| Store.AllocateInodeFull | fs.c:350 | with every inode used, allocateInode returns -1 and changes nothing |
| Store.FreeSlotBlocks | fs.c:360-364 | the slot loop of freeInode changes only the block bitmap |
| Store.FreeSlotBlocksEffect | fs.c:360-364 | after the slot loop a block is used exactly when it was used and no slot named it as a positive data block |
| Store.FreeInode | fs.c:354-374 | freeInode ignores an index outside the table, keeps the disk and the dimensions, and fails only by diverging |
| Store.ReleaseRecord | fs.c:369-373 | the last step clears the inode's bit and zeroes its record, releasing and never claiming anything |
| Store.ReleaseRecordAt | fs.c:369-373 | that step is the bitmap-byte update and the record replacement the source writes |
| Store.FreedChain | fs.c:360-367 | the slot loop and the recursive call keep the disk and the dimensions and fail only by diverging |
| Store.FreeInodeUnfold | fs.c:354-374 | freeInode succeeds exactly when its chain part does, and then is that part followed by the record release |
| Store.FreedChainNext | fs.c:360-367 | the chain part frees the slots first and then, when next_inode is set, continues with freeInode of the signed next index |
| Store.FreeInodeOfLast | fs.c:366-367 | freeing an inode without a successor always completes |
| Store.FreeInodeOnlyReleases | fs.c:354-374 | freeInode never sets a bit, and every record is either kept or zeroed |
| Store.FreeInodeReleasesInode | fs.c:369-373 | a completed freeInode leaves the inode free with a zero record |
| Store.FreeInodeReleasesBlocks | fs.c:360-364 | a completed freeInode leaves every block named by the inode's slots free |
| Store.FreeInodeReleasesNext | fs.c:366-367 | a completed freeInode also frees and zeroes the inode's successor |
| Store.FreeInodeSelfLoopDiverges | fs.c:366-367 | an inode other than the root whose next_inode is itself makes freeInode recurse for ever (Diverges at every bound) |
| Store.ReadBlock | fs.c:378-384 | readBlock succeeds exactly for indices below computed_data_blocks and fails with an I/O error otherwise |
| Store.WriteBlock | fs.c:387-395 | writeBlock succeeds exactly for indices below computed_data_blocks |
| Store.WriteThenRead | fs.c:378-395 | reading block c after writing block b gives the data written when c is b and the old contents otherwise; only the disk changed |
| Layout.CeilDiv | fs.c:49-51 | `(a + b - 1) / b` is the least q with q·b ≥ a |
| Layout.LayoutFor | fs.c:33-62 | the bitmaps have one bit per unit and no spare byte; the metadata takes the fewest blocks that hold both bitmaps and the table; the data blocks are the rest; the regions follow the header back to back; the data region starts at the first block boundary after the table |
| Layout.ComputeLayout | fs.c:33-62 | for 64 MiB: 65 metadata blocks and 131007 data blocks, and the data region ends exactly at the end of the image |
| Layout.HeaderOf | fs.c:102-112 | the header written by init_fs carries FS_MAGIC |
| Layout.Mount | fs.c:158-173 | mount_fs refuses exactly the headers whose magic is not FS_MAGIC; otherwise it restores the layout that header describes |
| Layout.MountRestoresLayout | fs.c:158-173 | mounting the header of a layout gives back that layout |
| Layout.ComputedLayoutFitsHeader | fs.c:102-112 | the computed layout fits the uint32 header fields and survives a write-then-mount round trip |
| Init.ComputedLayoutFits | fs.c:78-80 | the computed layout gives bitmaps large enough for every data block and every inode |
| Init.FreshState | fs.c:75-80 | the zeroed globals form a well-shaped state |
| Init.FreshAllocatesRoot | fs.c:88 | the first allocateInode on fresh globals returns inode 0, the root |
| Init.ZeroBitmapsClear | fs.c:78-80 | fresh bitmaps mark nothing as used |
| Init.RootState | fs.c:88-96 | after the root record is filled in, only inode 0 is used, it has the root's record, every other record is zero, and no block is used |
| Init.DotState | fs.c:97 | the state after adding the root's `.` entry is well shaped |
| Init.InitFs | fs.c:65-99 | the state after init_fs is well shaped, with its data region as large as the layout says |
| Init.EmptySlotsFindNothing | fs_operations.c:22-23 | a directory with no blocks finds no entry |
| Init.AddToBlocklessDirectory | fs_operations.c:83-123 | adding to a blockless directory succeeds in slot 2, in a fresh first-fit block |
| Init.AddDot | fs.c:97 | the root's `.` goes into block 0, the first free block, held by slot 2 |
| Init.DotStateFacts | fs.c:97 | after `.` the root has one entry's size, block 0 is the only used block and the other blocks are zero |
| Init.DotStateBlock | fs.c:97 | block 0 then holds `.` → 0 in entry 0 and free entries elsewhere |
| Init.AddDotDot | fs.c:98 | the root's `..` goes into block 1, which replaces block 0 in slot 2, because block 0 is a zero slot value |
| Init.PlaceDotDotRecords | fs.c:98 | after `..` the root's record has two entries' size and slot 2 = 1, only the root is used, and blocks 0 and 1 are used |
| Init.PlaceDotDotDisk | fs.c:98 | after `..`, block 1 holds `..` → 0 in entry 0 and nothing else, and block 0 still holds `.` |
| Init.PlaceDotDot | fs.c:98 | the combination of the two lemmas above |
| Init.InitRoot | fs.c:65-99 | after init_fs the root record has two entries' size and slot 2 = block 1, and only the root is used |
| Init.InitBlocks | fs.c:65-99 | after init_fs exactly blocks 0 and 1 are used, and every other block is zero |
| Init.InitZeroReserved | fs.c:65-99 | after init_fs block 0 and the root inode are in use |
| Init.InitRootListed | fs.c:65-99 | after init_fs the root's chain is the root alone, in use, and dirFindEntry can list it in full |
| Init.RootEntries | fs_operations.c:6-53 | in such a root, `..` is found as the root itself and `.` is not found |
| Init.InitRootEntries | fs.c:97-98 | after init_fs the root lists `..` (itself) but has lost `.`, whose block 0 no slot can name |
| Init.RootAddTakesEntryZero | fs_operations.c:106-118 | the first add to the fresh root succeeds and writes entry 0 of block 1, because `..` has index 0, which is the free marker |
| Init.ParentGoneFromRoot | fs_operations.c:35-43 | once entry 0 of block 1 holds another name, `..` is no longer found in the root |
| Init.NextAddReplacesParent | fs_operations.c:56-164 | a root in init_fs's shape loses `..` at the first successful add of another name |
| Init.InitParentIsLost | fs.c:97-98 | the first name created in a fresh root overwrites the root's `..` entry |
| InitOps.InitFileSystem | fs.c:65-99 | the object built by init_fs is valid, fresh, and stands for Init.InitFs |
| FileSystem.Fs.constructor | fs.c:75-80 | the calloc'ed arrays and the truncated disk stand for the fresh zero state |
| FileSystem.Fs.AllocateBlock | fs.c:314-325 | the in-place scan ends in the state and result of Store.AllocateBlock |
| FileSystem.Fs.FreeBlock | fs.c:328-335 | the in-place update ends in Store.FreeBlock's state |
| FileSystem.Fs.AllocateInode | fs.c:338-351 | the in-place scan ends in the state and result of Store.AllocateInode |
| FileSystem.Fs.FreeSlots | fs.c:360-364 | the slot loop ends in Store.FreeSlotBlocks of the inode's blocks |
| FileSystem.Fs.FreeInode | fs.c:354-374 | reports divergence exactly when Store.FreeInode does, and otherwise ends in its state |
| FileSystem.Fs.FreeChain | fs.c:360-367 | reports divergence exactly when Store.FreedChain does, and otherwise ends in its state |
| FileSystem.Fs.ReadBlock | fs.c:378-384 | gives Store.ReadBlock of the current state |
| FileSystem.Fs.WriteBlock | fs.c:387-395 | ends in Store.WriteBlock's state, or fails with an I/O error and changes nothing |
| DirEntry.EntriesFit | fs_operations.c:34 | a 512-byte block holds 14 entries of 36 bytes, covering 504 bytes |
| DirEntry.CString | fs_operations.c:36 | strcmp reads a name field up to its first NUL: a NUL-free prefix followed by a NUL or by the end of the field |
| DirEntry.EncodeU32 | fs_operations.c:110 | the little-endian bytes of inode_index decode back to the index |
| DirEntry.EntryName | fs_operations.c:36 | an entry's name is NUL-free and at most 32 bytes |
| DirEntry.NameFieldRead | fs_operations.c:108-109 | a name written with strncpy into the field reads back as its 31-byte truncation |
| DirEntry.PutEntry | fs_operations.c:108-110 | writing an entry sets its 36 bytes to the name field and the encoded index |
| DirEntry.ClearEntry | fs_operations.c:199-200 | clearing an entry zeroes its index and the first name byte and keeps the other name bytes |
| DirEntry.PutEntryRead | fs_operations.c:108-110 | the written entry reads back as the truncated name and the index; every other entry is unchanged |
| DirEntry.ClearEntryRead | fs_operations.c:199-200 | the cleared entry reads back as an empty name with index 0; every other entry is unchanged |
| DirEntry.ZeroBlockEntries | fs_operations.c:80 | every entry of a zeroed block is free, with an empty name |
| DirEntry.DotBlockEntries | fs_operations.c:275-280 | a new directory's block lists `.` → itself, `..` → its parent, and free entries after them |
| Directory.FindInBlock | fs_operations.c:35-43 | a reported position holds the name, with a target of an accepted type |
| Directory.FindInBlockSkips | fs_operations.c:35-43 | the reported position is the first match; no report means no entry of that block matches |
| Directory.FindInBlockAt | fs_operations.c:35-43 | one step of the entry loop: a match at j stops there, otherwise the scan goes on at j+1 |
| Directory.FindInSlots | fs_operations.c:22-45 | a found index is in the table and of an accepted type; failure is only a read error |
| Directory.FindInSlotsAt | fs_operations.c:22-45 | one step of the slot loop: zero slots are skipped, a read error stops, a match in the block wins, otherwise the loop goes on |
| Directory.FindInChain | fs_operations.c:18-50 | a found index is in the table and of an accepted type |
| Directory.FindInChainNext | fs_operations.c:46-49 | at a directory with a successor, the chain lookup is its own slots' match or else the successor's lookup with one link less |
| Directory.FindInChainContinues | fs_operations.c:46-49 | with no match in its own slots, the lookup moves on to next_inode |
| Directory.FindEntry | fs_operations.c:6-53 | dirFindEntry refuses a directory index outside the table and a name of 32 bytes or more; a found index is of an accepted type |
| Directory.FirstFree | fs_operations.c:106-107 | a reported position holds a free entry (index 0) |
| Directory.FirstFreeSkips | fs_operations.c:106-107 | it is the first free entry; no report means the block is full |
| Directory.EnsureSlotBlock | fs_operations.c:84-98 | a filled slot is used as it is; an empty one gets the lowest free block, which is zeroed on disk and linked; with no free block nothing changes |
| Directory.FullSlotWasThere | fs_operations.c:84-125 | when the slot's block proves full, the state is unchanged (no block was allocated) |
| Directory.StoreEntry | fs_operations.c:107-119 | storing an entry changes only that block and the directory's size (+36, truncated to 32 bits) and modification time |
| Directory.AddInSlots | fs_operations.c:83-126 | the slot loop changes nothing when it fails or finds no room, and never reports a permission failure |
| Directory.ExtendChain | fs_operations.c:129-156 | extending a full chain fails for lack of inodes with nothing changed, or for lack of blocks with the new inode left allocated |
| Directory.AddStep | fs_operations.c:67-160 | one round of dirAddEntry keeps the dimensions and moves only to a valid inode |
| Directory.AddInChain | fs_operations.c:65-163 | the chain walk of dirAddEntry keeps the dimensions and never reports a permission failure |
| Directory.AddInChainFinished | fs_operations.c:67-126 | a round that finishes ends the walk with that round's state and outcome |
| Directory.AddInChainGivesUp | fs_operations.c:160 | a walk that still continues when the bound runs out is reported as divergent |
| Directory.AddInChainNext | fs_operations.c:155-160 | a round that continues hands the walk to the next inode with one link less |
| Directory.AddEntry | fs_operations.c:56-164 | dirAddEntry refuses a directory index outside the table and a name already found for the type, changing nothing |
| Directory.FirstNamed | fs_operations.c:194-195 | a reported position holds a used entry with the name |
| Directory.FirstNamedSkips | fs_operations.c:194-195 | it is the first such position; no report means no used entry of the block has the name |
| Directory.ReleaseTarget | fs_operations.c:207-215 | releasing the removed entry's inode keeps the dimensions and fails only by diverging |
| Directory.RemoveAt | fs_operations.c:196-221 | removing a found entry keeps the dimensions |
| Directory.Unlink | fs_operations.c:207-218 | releasing the target and shrinking the directory keeps the dimensions |
| Directory.RemoveInSlots | fs_operations.c:184-224 | the slot loop changes nothing when no block has the name |
| Directory.RemoveInSlotsAt | fs_operations.c:184-224 | one step of the slot loop: zero slots are skipped, a read error stops, the first named entry of the block is removed, otherwise the loop goes on |
| Directory.RemoveStep | fs_operations.c:174-227 | one round of dirRemoveEntry keeps the dimensions, and a round that moves on changes nothing |
| Directory.RemoveInChain | fs_operations.c:172-230 | the chain walk of dirRemoveEntry keeps the dimensions |
| Directory.RemoveInChainFinished | fs_operations.c:184-224 | a round that finishes ends the walk with that round's state and outcome |
| Directory.RemoveInChainGivesUp | fs_operations.c:227 | a walk that still continues when the bound runs out is reported as divergent and changes nothing |
| Directory.RemoveInChainNext | fs_operations.c:226-227 | a round that continues hands the walk to next_inode with one link less |
| Directory.RemoveEntry | fs_operations.c:167-231 | dirRemoveEntry refuses a directory index outside the table, changing nothing |
| DirUpdate.PlaceInSlot | fs_operations.c:100-123 | a slot whose block has a free entry receives the entry there, and the add succeeds |
| DirUpdate.SkipFullSlot | fs_operations.c:106-126 | a slot whose block has no free entry is full, and the loop goes on unchanged at the next slot |
| DirUpdate.FailInSlot | fs_operations.c:84-104 | a slot that cannot get or read its block ends the add with a failure |
| DirUpdate.FirstOpenSlot | fs_operations.c:83-126 | a reference definition: the first slot from i whose block is not full, with every earlier one full |
| DirUpdate.AddInSlotsPlaces | fs_operations.c:83-126 | the slot loop finds no room only when every slot is full, and on success places the entry in the first open slot |
| DirUpdate.ExtendChainEffect | fs_operations.c:129-156 | a successful extension links the lowest free inode, now a used directory ending the chain, whose slot 0 is the lowest free block, now used and zeroed; the extended inode only gains the link, and other inodes are unchanged |
| DirUpdate.PlacedStores | fs_operations.c:106-118 | a placement stores the truncated name and the index in the slot's block |
| DirUpdate.ReleaseTargetEffect | fs_operations.c:207-215 | the released target is free and zeroed, its blocks are free, nothing becomes used, and every record is kept or zeroed |
| DirUpdate.RemoveAtSteps | fs_operations.c:196-218 | a removal clears the entry on disk, releases its target, then shrinks the head directory by one entry |
| DirUpdate.RemoveAtEffect | fs_operations.c:196-218 | after a removal the entry is cleared, the target is free, its blocks are free, and nothing becomes used |
| DirUpdate.RemoveAtRecords | fs_operations.c:207-218 | the head directory's size drops by 36 (truncated to 32 bits), or restarts from a zeroed record when the head itself was released; other records are kept or zeroed |
| DirUpdate.EnsureSlotBlockKeeps | fs_operations.c:84-98 | getting a block for a slot leaves every other inode's record and bit alone |
| DirUpdate.AddInSlotsKeeps | fs_operations.c:83-126 | the slot loop leaves every other inode's record and bit alone |
| DirUpdate.ExtendChainKeeps | fs_operations.c:129-156 | extending a chain leaves every other used inode's record and bit alone |
| DirUpdate.AddStepKeeps | fs_operations.c:67-160 | a round leaves every used non-directory inode alone |
| DirUpdate.AddInChainKeeps | fs_operations.c:65-163 | the walk leaves every used non-directory inode alone |
| DirUpdate.AddEntryKeeps | fs_operations.c:56-164 | dirAddEntry never changes the record of a used file or symlink |
| DirListing.BlockListing | fs_operations.c:34-35 | a block lists its fourteen entries in order, free ones included |
| DirListing.FirstMatch | fs_operations.c:35-43 | the first listed entry with the name and an accepted target type, or none |
| DirListing.LookupIsFirstMatch | fs_operations.c:35-43 | a lookup in a listing gives the first match's index |
| DirListing.LookupAppend | fs_operations.c:18-50 | a match in an earlier part of a listing hides any later one |
| DirListing.FindInBlockIsLookup | fs_operations.c:35-43 | the entry loop of one block is a lookup in its listing |
| DirListing.BlockListingTail | fs_operations.c:35 | the entries from position j of a block are entry j followed by the entries from j+1 |
| DirListing.FindInSlotsIsLookup | fs_operations.c:22-45 | the slot loop is a lookup in the listing of the slots' blocks |
| DirListing.FindInChainIsLookup | fs_operations.c:18-50 | the chain walk is a lookup in the listing of the whole chain |
| DirListing.FindAtChainEnd | fs_operations.c:46-47 | at the last inode of the chain the walk is the lookup in its own listing |
| DirListing.ChainListingNext | fs_operations.c:46-49 | a chain that lists and has a successor is a directory whose own slots list, and its successor's chain lists |
| DirListing.ChainListingJoin | fs_operations.c:46-49 | a chain's listing is the head's entries followed by the successor's |
| DirListing.FindInChainStep | fs_operations.c:18-50 | the lookup in a chain is the head's own match if any, otherwise the successor's, for the listing and for the walk alike |
| DirListing.FindEntryIsFirstMatch | fs_operations.c:6-53 | dirFindEntry returns the index of the first entry of the directory's listing with the name and an accepted type, otherwise not found |
| DirWalk.ChainOf | fs_operations.c:65-160 | the inodes dirAddEntry's loop can visit from the head: the head first, then each next_inode inside the table, at most fuel links |
| DirWalk.ChainOfLinks | fs_operations.c:160 | each inode of the chain after the first is the next_inode of the one before it |
| DirWalk.ChainOfEnd | fs_operations.c:129-160 | the chain stops only at a next_inode of 0 or outside the table, or after fuel links |
| DirWalk.ChainOfSameLinks | fs_operations.c:160 | two states with the same next_inode fields have the same chains |
| DirWalk.ChainOfMember | fs_operations.c:160 | an inode of the chain other than the head is on the successor's chain, one link shorter |
| DirWalk.FirstOpen | fs_operations.c:83-126 | the position of the first inode of a list with a slot 2..11 that is not full; every inode before it is full |
| DirWalk.FirstOpenCons | fs_operations.c:83-126 | a full inode in front of a list shifts its first open inode by one place |
| DirWalk.AllDirectoriesCons | fs_operations.c:69-70 | a directory in front of a list does not change whether its first inodes are all directories |
| DirWalk.FitInCons | fs_operations.c:67-161 | a full directory in front of a list does not change where the first-fit insertion goes |
| DirWalk.FitHere | fs_operations.c:83-126 | a directory with an open slot takes the entry itself, in its first open slot |
| DirWalk.FitFurther | fs_operations.c:158-160 | a full directory with a successor hands the insertion to the successor's chain |
| DirWalk.FitAtEnd | fs_operations.c:129-156 | a full directory at the end of its chain is where the chain gets extended |
| DirWalk.FitInExtension | fs_operations.c:129-160 | after an extension, the new inode's slot 2 is where the entry goes |
| DirWalk.FirstFitAtEnd | fs_operations.c:129-160 | an extension followed by the first-fit insertion into the new inode is the first-fit insertion from the extended inode |
| DirWalk.FirstFitFurther | fs_operations.c:158-160 | a first-fit insertion from the successor of a full directory is one from that directory |
| DirWalk.FirstFitMovesOn | fs_operations.c:67-161 | a round that moves on, extending the chain or not, followed by a first-fit insertion from the next inode, is a first-fit insertion from the current inode |
| DirWalk.AddInChainFirstFit | fs_operations.c:65-163 | a successful add loop placed the entry exactly where the first-fit reference puts it: the first open slot of the first inode of the chain with room, or a new inode after the last, full one |
| DirWalk.AddEntryFirstFit | fs_operations.c:56-164 | a successful dirAddEntry found no entry with the name and type, and placed the entry at the first-fit place along the chain from dir |
| DirWalk.RelinkedReaches | fs_operations.c:155-160 | a chain whose last inode is linked to a new inode now reaches that inode |
| DirWalk.PlacedInNonzero | fs_operations.c:84-98 | with block 0 in use, a placement never leaves the slot at block 0 |
| DirWalk.FitOnChain | fs_operations.c:65-161 | the inode the first-fit place names is on the chain from dir, and an extension is after its last inode, with a link to spare |
| DirWalk.PlacedInChain | fs_operations.c:83-126 | a placement in an inode of dir's chain puts the entry in a nonzero slot 2..11 of an inode of that chain |
| DirWalk.ExtensionOnChain | fs_operations.c:129-156 | extending the last inode of dir's chain links in a new inode that dir's chain now reaches, and keeps block 0 in use |
| DirWalk.ExtendedInChain | fs_operations.c:129-160 | so an insertion after an extension puts the entry in a slot of an inode of dir's chain |
| DirWalk.AddEntryInChain | fs_operations.c:56-164 | with block 0 and the root inode in use, after a successful dirAddEntry the entry, its name cut to 31 bytes, is in a nonzero slot of an inode of dir's chain |
| DirWalk.SlotListingCons | fs_operations.c:22-45 | the listing of a slot list is the first slot's block listing, if nonzero, followed by the rest's |
| DirWalk.SlotEntryAt | fs_operations.c:22-45 | entry j of the block in slot k sits at a computed position of the slots' listing |
| DirWalk.ChainListingSplit | fs_operations.c:46-49 | the listing of a chain with a successor is the head's listing followed by the successor's |
| DirWalk.ChainOfReaches | fs_operations.c:46-49 | every inode of the chain is reached by dirFindEntry's walk |
| DirWalk.ReachedEntryListed | fs_operations.c:18-50 | an entry in the listing of a reached inode is in the listing of the chain |
| DirWalk.ReachedEntryAtEnd | fs_operations.c:46-47 | at the end of the chain, the only reached inode is the head, whose entries are the listing |
| DirWalk.ChainSlotsReadable | fs_operations.c:22-32 | on a readable chain, every inode of the chain has readable slots |
| DirWalk.InChainListed | fs_operations.c:18-50 | an entry in a slot of an inode of dir's chain is in dirFindEntry's listing of dir whenever that listing can be read |
| DirWalk.SlotListingReadable | fs_operations.c:22-32 | the slots list exactly when every nonzero slot names a block of the data region |
| DirWalk.ChainListingReadable | fs_operations.c:18-50 | dirFindEntry's listing of a chain succeeds exactly when the chain is made of directories with readable slots, linked inside the table, ending at next_inode 0 within the bound |
| DirWalk.ChainKeptHead | fs_operations.c:46-49 | the head of a chain whose inodes keep their kind, link and readable slots is kept, and so is the rest |
| DirWalk.ReadableKept | fs_operations.c:18-50 | a readable chain whose inodes keep their kind, link and readable slots stays readable |
| DirWalk.ChainRelinkedHead | fs_operations.c:155-160 | the head of a chain relinked at its last inode is kept unless it is that inode, and the rest is relinked |
| DirWalk.ReadableRelinked | fs_operations.c:129-160 | a readable chain whose last inode is linked to a fresh directory ending the chain stays readable |
| DirWalk.PlacedReadable | fs_operations.c:83-126 | a placement in an inode of a readable chain keeps it readable |
| DirWalk.ExtendedShape | fs_operations.c:129-156 | on a chain of used inodes, an extension links in a fresh inode off the chain, a directory ending the chain with readable slots; only the last inode's link and the new inode change |
| DirWalk.PlacedInFresh | fs_operations.c:106-118 | a placement in slot 2 of the new inode changes only that inode, which still ends the chain and has readable slots |
| DirWalk.ExtendedRelinks | fs_operations.c:129-160 | such an extension relinks dir's chain at its last inode to the new one |
| DirWalk.ExtendedReadable | fs_operations.c:129-160 | an extension of a readable chain of used inodes keeps it readable |
| DirWalk.AddEntryReadable | fs_operations.c:56-164 | a successful dirAddEntry keeps a readable chain of used inodes readable |
| DirWalk.AddEntryListed | fs_operations.c:56-164 | with block 0 and the root inode in use, on a chain of used inodes that dirFindEntry can list, a successful dirAddEntry leaves a chain it can still list, whose listing holds the entry under its name cut to 31 bytes |
| DirRemoval.FirstHolding | fs_operations.c:184-195 | the first block of a list that can be read and holds a used entry with the name; none only when no block of the list holds one |
| DirRemoval.FirstHoldingAt | fs_operations.c:184-195 | every block of the list before the chosen one holds no used entry with the name |
| DirRemoval.FirstHoldingAppend | fs_operations.c:184-228 | a block holding the name in an earlier part of the walk hides any later one |
| DirRemoval.SlotWalkReadable | fs_operations.c:184-192 | every block the slot loop reads is nonzero and inside the data region |
| DirRemoval.RemoveInSlotsWalk | fs_operations.c:184-224 | the slot loop removes the first used entry with the name of the first block that holds one; when none does it changes nothing, and reports nothing or, at an unreadable block, IoError |
| DirRemoval.RemoveStepOwn | fs_operations.c:174-227 | a round at a directory removes from its own blocks or stops on an error when it can, and otherwise moves on to next_inode with nothing changed |
| DirRemoval.RemovalWalkNext | fs_operations.c:226-227 | the walk past a directory reads its blocks, then those of the walk from next_inode |
| DirRemoval.RemoveInChainFirst | fs_operations.c:172-230 | the removal loop removes at the first block of its bounded walk that holds the name, the first used entry with the name in that block; when no block does it changes nothing and fails with the error the walk ends with |
| DirRemoval.RemoveEntryFirst | fs_operations.c:167-231 | dirRemoveEntry removes the first used entry with the name in chain, slot and entry order of its walk from dir (next_inode 0 leading on to the root), whatever the target's type; when none is found it changes nothing and fails |
| DirOps.Matches | fs_operations.c:36-37 | the strcmp and type test is Directory.Matches |
| DirOps.FindInBlock | fs_operations.c:35-43 | the entry loop computes Directory.FindInBlock |
| DirOps.FindInSlots | fs_operations.c:22-45 | the slot loop computes Directory.FindInSlots |
| DirOps.FindRound | fs_operations.c:19-49 | one round of the chain loop either ends with the chain's answer or moves to a successor with the same answer and less fuel |
| DirOps.FindInChain | fs_operations.c:18-50 | the chain loop computes Directory.FindInChain |
| DirOps.FindEntry | fs_operations.c:6-53 | dirFindEntry computes Directory.FindEntry |
| DirOps.FirstFree | fs_operations.c:106-107 | the free-entry scan computes Directory.FirstFree |
| DirOps.EnsureSlotBlock | fs_operations.c:84-98 | ends in Directory.EnsureSlotBlock's state and result |
| DirOps.StoreEntry | fs_operations.c:107-119 | ends in Directory.StoreEntry's state |
| DirOps.AddInSlots | fs_operations.c:83-126 | the slot loop from slot 2 ends in Directory.AddInSlots's state and result |
| DirOps.ExtendChain | fs_operations.c:129-156 | ends in Directory.ExtendChain's state and result |
| DirOps.AddStep | fs_operations.c:67-160 | one round ends in Directory.AddStep's state, outcome and successor |
| DirOps.AddRound | fs_operations.c:67-160 | one round either ends the walk with its result or leaves a walk from the successor with the same result |
| DirOps.AddInChain | fs_operations.c:65-163 | the chain loop ends in Directory.AddInChain's state and result |
| DirOps.AddEntry | fs_operations.c:56-164 | dirAddEntry ends in Directory.AddEntry's state and result |
| DirOps.FirstNamed | fs_operations.c:194-195 | the named-entry scan computes Directory.FirstNamed |
| DirOps.ReleaseTarget | fs_operations.c:207-215 | ends in Directory.ReleaseTarget's state |
| DirOps.RemoveAt | fs_operations.c:196-221 | ends in Directory.RemoveAt's state and outcome |
| DirOps.Unlink | fs_operations.c:207-218 | ends in Directory.Unlink's state and outcome |
| DirOps.RemoveInSlots | fs_operations.c:184-224 | the slot loop ends in Directory.RemoveInSlots's state and result |
| DirOps.RemoveStep | fs_operations.c:174-227 | one round ends in Directory.RemoveStep's state, outcome and successor |
| DirOps.RemoveRound | fs_operations.c:174-227 | one round either ends the walk with its result or leaves a walk from next_inode with the same result |
| DirOps.RemoveInChain | fs_operations.c:172-230 | the chain loop ends in Directory.RemoveInChain's state and result |
| DirOps.RemoveEntry | fs_operations.c:167-231 | dirRemoveEntry ends in Directory.RemoveEntry's state and result |
| Permissions.ClassShift | fs_operations.c:235-238 | the owner triplet (shift 6) applies exactly when the caller owns the inode, the "other" triplet (shift 0) otherwise |
| Permissions.HasPermission | fs_operations.c:234-240 | only requested read/write/execute bits are reported, each exactly when it is requested and granted to the caller's class |
| Permissions.GroupBitsIgnored | fs_operations.c:234-240 | the group triplet never affects the answer |
| Permissions.AnyRequestedBitSuffices | fs_operations.c:234-240 | the answer is nonzero exactly when some requested bit is granted to the caller's class |
| Permissions.DefaultPermissionsGrant | fs_operations.c:268 | rwxr-xr-x lets everyone read and execute, and only the owner write |
| Links.FollowLinks | fs_operations.c:557-560 | the hop loop ends at a non-symlink inode, returns a non-symlink start at once, and fails only on too many hops or an index outside the table |
| Links.Trail | fs_operations.c:557-560 | the inodes visited form a symlink path of at most 17 entries from the start |
| Links.FollowAlongPath | fs_operations.c:557-560 | following links along a symlink path equals following from its end with the hops counted |
| Links.FollowLinksTrail | fs_operations.c:557-560 | a successful follow ends at the last inode of its trail, within the hop bound |
| Links.ShortPathResolves | fs_operations.c:557-560 | a link path of at most 16 hops that ends at a non-symlink resolves to that inode |
| Links.LongPathRefused | fs_operations.c:559 | a path still at a symlink after 16 hops is refused as a loop |
| Links.SelfLinkRefused | fs_operations.c:557-560 | a symlink to itself is refused as a loop |
| LinkOps.FollowLinks | fs_operations.c:557-560 | the hop loop computes Links.FollowLinks |
| Content.LastInChain | fs_operations.c:460-463 | the walk ends at an inode without a successor, the start itself when it has none, and fails only on a bad index or divergence |
| Content.LastInChainNext | fs_operations.c:460-462 | the walk from an inode with a successor is the walk from the successor |
| Content.LastUsedSlot | fs_operations.c:466-472 | the highest nonzero slot, with all later slots zero, or -1 when every slot is zero |
| Content.LastUsedSlotIs | fs_operations.c:466-472 | any k with those two properties is the result |
| Content.FirstZeroSlot | fs_operations.c:506-508 | the lowest zero slot with every earlier slot nonzero, or none when every slot is used |
| Content.Overwrite | fs_operations.c:493 | memcpy into a block replaces exactly the bytes at [at, at + len) |
| Content.FillLast | fs_operations.c:474-500 | filling the partial last block changes only the disk, consumes at most the data, and fails only on a read error |
| Content.ChunkSlot | fs_operations.c:505-520 | the slot found for a chunk is a zero slot of a valid inode; only running out of inodes fails, changing nothing |
| Content.PlaceChunk | fs_operations.c:505-535 | one chunk round keeps the dimensions, finishes only by failing, and otherwise continues at an inode in the table |
| Content.PutChunk | fs_operations.c:523-535 | a chunk goes into the chosen slot, or fails for lack of blocks with nothing changed |
| Content.WriteChunks | fs_operations.c:503-539 | the chunk loop keeps the dimensions and does nothing without data |
| Content.WriteChunksAt | fs_operations.c:503-539 | one step of the chunk loop takes the next min(rest, 512) bytes |
| Content.AddContent | fs_operations.c:447-547 | refuses an index outside the table and a caller without write permission, changing nothing; on success the head's size grew by the data's length (modulo 2^32) at time now |
| Content.Append | fs_operations.c:474-543 | on success the head's size grew by the data's length (modulo 2^32) at time now |
| Content.ReadSlots | fs_operations.c:572-585 | reading the slots gives at most the wanted bytes and fails only on a read error |
| Content.ReadSlotsAt | fs_operations.c:572-585 | one step of the slot loop: zero slots are skipped, a read error stops, a block contributes whole or cut to what is still wanted |
| Content.ReadChain | fs_operations.c:571-594 | reading a chain gives at most the wanted bytes, and fails only with a read error, a next_inode outside the table or Diverges |
| Content.ReadSlotsWhole | fs_operations.c:572-585 | slots that all lie inside the data region read without an error |
| Content.ReadSlotsProgress | fs_operations.c:572-582 | with bytes still wanted, a readable nonzero slot makes the slot loop copy at least one byte |
| Content.SelfLinkedReads | fs_operations.c:571-594 | an inode other than the root linked to itself, with a readable block, yields the whole request, as the C's repeated passes over the block do |
| Content.SelfLinkedReadContent | fs_operations.c:550-599 | readContentFromInode on such a file, with read access and room for the NUL, returns all size bytes |
| Content.ReadChainContinues | fs_operations.c:587-590 | when a chain inode does not fill the request, the read goes on at next_inode for the remainder, with the idle bound reset after an inode that copied something |
| Content.ReadContent | fs_operations.c:550-599 | symlinks are followed first; a buffer not larger than the size is refused; a read gives at most size bytes |
| ContentFacts.BlocksFor | fs_operations.c:503-539 | the number of 512-byte blocks n bytes occupy |
| ContentFacts.Data | fs_operations.c:572-585 | the concatenated bytes of a list of blocks |
| ContentFacts.LastSlotStored | fs_operations.c:466-472 | the highest nonzero slot of a stored file is its last block's |
| ContentFacts.DataSnoc | fs_operations.c:581-582 | appending a block to the list appends its bytes to the data |
| ContentFacts.DataFrame | fs_operations.c:581-582 | the data of a list of blocks depends only on those blocks |
| ContentFacts.ReadZeroSlots | fs_operations.c:573 | reading only zero slots gives nothing |
| ContentFacts.ReadSlotsData | fs_operations.c:572-585 | reading a file's laid-out slots for n bytes gives the first n bytes of its blocks' data |
| ContentFacts.ReadChainStored | fs_operations.c:571-594 | reading a stored file's chain gives back exactly its content |
| ContentFacts.ReadHeld | fs_operations.c:550-599 | readContentFromInode on a held file gives exactly its content to a reader with read permission and a large enough buffer |
| ContentFacts.EmptyStored | fs_operations.c:253-269 | a file without blocks stores the empty content |
| ContentFacts.Room | fs_operations.c:490 | the free bytes left in a file's last block |
| ContentFacts.FillLastStored | fs_operations.c:484-500 | filling the last block appends min(len, room) bytes of the data to the stored content, touching only the disk |
| ContentFacts.StoredExtendLast | fs_operations.c:493-495 | rewriting the last block with the old prefix and new bytes extends the stored content |
| ContentFacts.ExtendLastData | fs_operations.c:493-495 | that rewrite makes the blocks' data begin with content followed by the new bytes |
| ContentFacts.FillLastWrites | fs_operations.c:484-500 | for a partial last block, the fill writes the first min(len, room) bytes after the content |
| ContentFacts.StoredAppendBlock | fs_operations.c:523-535 | a fresh block in the next slot holding a chunk extends the stored content by that chunk |
| ContentFacts.AppendLaid | fs_operations.c:523-526 | linking a free block into the next slot keeps the file laid out |
| ContentFacts.AppendData | fs_operations.c:530-535 | the new block's chunk lands right after the old content |
| ContentFacts.PlaceChunkStored | fs_operations.c:505-535 | a chunk round that continues extends the stored content by the chunk, in the same inode, keeping block 0 reserved |
| ContentFacts.WriteLastChunk | fs_operations.c:503-539 | a last chunk written successfully extends the stored content |
| ContentFacts.WriteFullChunk | fs_operations.c:503-539 | a full chunk extends the content by 512 bytes, and the loop goes on with the rest |
| ContentFacts.WriteChunksStored | fs_operations.c:503-539 | a successful chunk loop stores the content followed by all the data in the same inode |
| ContentFacts.StoredRetimed | fs_operations.c:542-543 | updating the head's size and date keeps the stored content |
| ContentFacts.FillThenChunks | fs_operations.c:484-539 | the fill and the chunk loop together store the content followed by the data |
| ContentFacts.SizeSet | fs_operations.c:542-543 | the final size update makes the file hold content followed by the data, with size and date set |
| ContentFacts.AddContentOnHead | fs_operations.c:447-463 | for a file without successor inodes, addContentToInode appends to the head itself |
| ContentFacts.AppendHeld | fs_operations.c:447-547 | a successful append to a single-inode file within capacity makes it hold its content followed by the data, with the new size and date |
| ContentFacts.AppendThenRead | fs_operations.c:447-599 | for a file held in its own inode (at most 12 blocks, no successor), when content and data together fit 6144 bytes, block 0 is in use, the file is not a symlink, the reader has read access and the buffer has room for the NUL: reading after a successful append gives back the old content followed by the data |
| ContentOps.LastInChain | fs_operations.c:460-463 | the walk computes Content.LastInChain |
| ContentOps.LastUsedSlot | fs_operations.c:466-472 | the backward scan computes Content.LastUsedSlot |
| ContentOps.FirstZeroSlot | fs_operations.c:506-508 | the forward scan computes Content.FirstZeroSlot |
| ContentOps.FillLast | fs_operations.c:484-500 | ends in Content.FillLast's state and count, or fails as it does with nothing changed |
| ContentOps.ChunkSlot | fs_operations.c:505-520 | ends in Content.ChunkSlot's state and result |
| ContentOps.PlaceChunk | fs_operations.c:505-535 | ends in Content.PlaceChunk's state, outcome and inode |
| ContentOps.PutChunk | fs_operations.c:523-535 | ends in Content.PutChunk's state; a failure is lack of space |
| ContentOps.WriteChunks | fs_operations.c:503-539 | the chunk loop ends in Content.WriteChunks's state and outcome |
| ContentOps.AddContent | fs_operations.c:447-547 | addContentToInode ends in Content.AddContent's state and outcome |
| ContentOps.Append | fs_operations.c:474-543 | ends in Content.Append's state and outcome |
| ContentOps.ReadSlots | fs_operations.c:572-585 | the slot loop computes Content.ReadSlots |
| ContentOps.ReadRound | fs_operations.c:571-593 | one round either gives the chain's read, or has read bytes that, prefixed to the read of the rest from next_inode, give the chain's read |
| ContentOps.ReadChain | fs_operations.c:571-594 | the chain loop computes Content.ReadChain |
| ContentOps.ReadContent | fs_operations.c:550-599 | readContentFromInode computes Content.ReadContent |
| Lifecycle.NewInode | fs_operations.c:256-269 | a new record has the kind, the truncated name, size 0, the caller as creator and owner, rwxr-xr-x, and no blocks or successor |
| Lifecycle.StageDirectory | fs_operations.c:253-282 | staging a directory yields a valid inode, fails for lack of inodes with nothing changed, and otherwise fails only for lack of blocks |
| Lifecycle.CreateDirectory | fs_operations.c:243-287 | createDirectory refuses a parent outside the table or an existing directory name, and a write-protected parent other than the root, changing nothing |
| Lifecycle.StageFile | fs_operations.c:403-417 | staging a file yields a valid inode, or fails for lack of inodes with nothing changed |
| Lifecycle.CreateFile | fs_operations.c:392-422 | createFile refuses a parent outside the table or an existing name of a regular file, and a write-protected parent other than the root, changing nothing |
| Lifecycle.StageSymlink | fs_operations.c:612-626 | staging a symlink yields a valid inode, or fails for lack of inodes with nothing changed |
| Lifecycle.CreateSymlink | fs_operations.c:602-635 | createSymlink refuses an existing name and a write-protected parent, changing nothing |
| Lifecycle.AddLink | fs_operations.c:628-631 | adding the link's entry, undone on failure, keeps the dimensions |
| Lifecycle.FirstOccupied | fs_operations.c:374-380 | the first entry with a nonzero index whose name is neither `.` nor `..`, or none when the block has none |
| Lifecycle.CheckEmpty | fs_operations.c:359-382 | the emptiness check succeeds only when every nonzero slot names a readable block whose used entries are all `.` or `..`; it fails only with a read error or NotEmpty |
| Lifecycle.CheckEmptyAt | fs_operations.c:359-382 | one step of the check: zero slots are skipped, a read error stops, a used entry refuses, otherwise the check goes on |
| Lifecycle.DeleteDirectory | fs_operations.c:349-389 | deleteDirectory keeps the dimensions |
| Lifecycle.DeleteDirectoryRefuses | fs_operations.c:349-382 | a parent outside the table, a failed lookup, a write-protected target and a non-empty or unreadable target are refused with nothing changed |
| Lifecycle.DeleteFile | fs_operations.c:425-444 | deleteFile refuses a parent outside the table, a failed lookup and a write-protected target, changing nothing |
| Lifecycle.DeleteSymlink | fs_operations.c:637-649 | deleteSymlink refuses a parent outside the table, target index 0, a write-protected target and a target that is not a symlink, changing nothing |
| LifecycleEffects.StageDirectoryInode | fs_operations.c:253-254 | the new directory is the lowest free inode, now used |
| LifecycleEffects.StageDirectoryEffect | fs_operations.c:256-273 | only the new inode's record changes: it becomes the new directory record with slot 0 set |
| LifecycleEffects.StageDirectoryBlocks | fs_operations.c:271-282 | slot 0 is the lowest free block, now used, and it is written with the `.`/`..` block |
| LifecycleEffects.StageDirectoryBlock | fs_operations.c:275-282 | that block lists `.` → the new inode, `..` → the parent, and nothing else |
| LifecycleEffects.StageDirectoryReserves | fs_operations.c:253-273 | staging a directory keeps block 0 and the root inode in use when they were |
| LifecycleEffects.CreateDirectoryEffect | fs_operations.c:243-287 | a successful createDirectory had a free name and permission, and dirAddEntry put the truncated name → the new inode at the first-fit place along the parent's chain; when block 0 and the root inode were in use, that place is a slot of an inode of the parent's chain that dirFindEntry reads |
| LifecycleEffects.StageFileEffect | fs_operations.c:403-417 | the new file is the lowest free inode, now used, with the new record, and blocks and disk are unchanged |
| LifecycleEffects.StageFileReserves | fs_operations.c:403-417 | staging a file keeps block 0 and the root inode in use when they were |
| LifecycleEffects.CreateFileEffect | fs_operations.c:392-422 | a successful createFile had a free name and permission, and dirAddEntry put the truncated name → the new inode at the first-fit place along the parent's chain; when block 0 and the root inode were in use, that place is a slot of an inode of the parent's chain that dirFindEntry reads |
| LifecycleEffects.StageSymlinkEffect | fs_operations.c:612-626 | the link is the lowest free inode, with the target, the truncated name, the caller as owner, size 0, and the target's permissions (zero when the target is the link's own, just-zeroed record); nothing else changes |
| LifecycleEffects.StageSymlinkReserves | fs_operations.c:612-626 | staging a symlink keeps block 0 and the root inode in use when they were |
| LifecycleEffects.CreateSymlinkEffect | fs_operations.c:602-635 | a successful createSymlink had a free name and permission, and dirAddEntry put the truncated name → the link at the first-fit place along the parent's chain; when block 0 and the root inode were in use, that place is a slot of an inode of the parent's chain that dirFindEntry reads |
| LifecycleEffects.CreateSymlinkUndoCompletes | fs_operations.c:628-631 | the undo after a failed add always completes |
| LifecycleEffects.DeleteDirectoryEffect | fs_operations.c:349-389 | a successful deleteDirectory found the directory, had permission and found it empty; dirRemoveEntry removed the first used entry with the name along its walk from the parent, whatever its type; the directory's inode is free |
| LifecycleEffects.RemovalSetsNoBlock | fs_operations.c:196-218 | a removal never marks a free block as used |
| LifecycleEffects.DeleteFileEffect | fs_operations.c:425-444 | a successful deleteFile found the file and had permission; every block the file listed is free; dirRemoveEntry removed the first used entry with the name along its walk from the parent, in the state after the blocks were freed; the file's inode is free |
| LifecycleEffects.DeleteSymlinkEffect | fs_operations.c:637-649 | a successful deleteSymlink had a symlink with permission; dirRemoveEntry removed the first used entry carrying the link's stored name along its walk from the parent; the link's inode is free |
| LifecycleOps.Writable | fs_operations.c:250 | the write test is Lifecycle.Writable |
| LifecycleOps.StageDirectory | fs_operations.c:253-282 | ends in Lifecycle.StageDirectory's state and result |
| LifecycleOps.CreateDirectory | fs_operations.c:243-287 | createDirectory ends in Lifecycle.CreateDirectory's state and outcome |
| LifecycleOps.StageFile | fs_operations.c:403-417 | ends in Lifecycle.StageFile's state and result |
| LifecycleOps.CreateFile | fs_operations.c:392-422 | createFile ends in Lifecycle.CreateFile's state and outcome |
| LifecycleOps.StageSymlink | fs_operations.c:612-626 | ends in Lifecycle.StageSymlink's state and result |
| LifecycleOps.CreateSymlink | fs_operations.c:602-635 | createSymlink ends in Lifecycle.CreateSymlink's state and outcome |
| LifecycleOps.AddLink | fs_operations.c:628-631 | ends in Lifecycle.AddLink's state and outcome |
| LifecycleOps.FirstOccupied | fs_operations.c:374-380 | the entry scan computes Lifecycle.FirstOccupied |
| LifecycleOps.CheckEmpty | fs_operations.c:359-382 | the slot loop computes Lifecycle.CheckEmpty |
| LifecycleOps.DeleteDirectory | fs_operations.c:349-389 | deleteDirectory reports Lifecycle.DeleteDirectory's outcome and, unless it diverged, ends in its state |
| LifecycleOps.DeleteFile | fs_operations.c:425-444 | deleteFile reports Lifecycle.DeleteFile's outcome and, unless it diverged, ends in its state |
| LifecycleOps.DeleteSymlink | fs_operations.c:637-649 | deleteSymlink reports Lifecycle.DeleteSymlink's outcome and, unless it diverged, ends in its state |
| Paths.FirstSlash | fs_operations.c:668 | the position of the first `/`, or the length when there is none |
| Paths.NextToken | fs_operations.c:312-314 | the token has at most cap bytes and no slash, and the path is the token, an optional consumed slash and the rest |
| Paths.NextComponent | fs_operations.c:668-670 | the component has no slash, and the path is the component followed by a slash and the rest, or the component alone |
| Paths.AfterHome | fs_operations.c:658-662 | a `~` prefix and an optional following slash are dropped |
| Paths.LastSlash | fs_operations.c:702 | strrchr: the last `/`, with none after it, or -1 when there is none |
| Paths.SplitPath | fs_operations.c:701-712 | with a slash, the parent and the base name joined by the last slash give the path back and the base has no slash; without one the result is `.` and the path |
| Paths.SplitPathJoin | fs_operations.c:701-712 | splitting a parent joined to a slash-free base name gives them back |
| Resolve.ComponentType | fs_operations.c:682-683 | a component is looked up as a directory exactly when a slash follows somewhere after it, and as any type otherwise |
| Resolve.Walk | fs_operations.c:666-694 | an exhausted path stays at the current inode |
| Resolve.ResolvePath | fs_operations.c:652-698 | the empty path resolves to the starting inode |
| Resolve.HomeIgnoresStart | fs_operations.c:658-662 | a path starting with `~` resolves from the root whatever the starting inode |
| Resolve.ComponentThenSlash | fs_operations.c:668-670 | a slash-free token followed by a slash is read as that token and the rest |
| Resolve.LastComponent | fs_operations.c:668-670 | a slash-free token is read whole, leaving nothing |
| Resolve.SkipsDotAndEmpty | fs_operations.c:672 | empty components and `.` are skipped |
| Resolve.ParentComponent | fs_operations.c:674-679 | `..` moves to the directory's `..` entry, or fails when that lookup does |
| Resolve.NamedComponent | fs_operations.c:681-693 | a name is looked up with the type the rest of the path decides, symlinks are followed, and the walk goes on from there; each failure stops it |
| Resolve.ComponentOfJoin | fs_operations.c:668-670 | the first component of p/token is either p itself or a component inside p |
| Resolve.LastNameNotSymlink | fs_operations.c:687-693 | a path that ends in a name resolves to an inode in the table that is not a symlink |
| Resolve.Mkdirs | fs_operations.c:309-343 | the walk keeps the dimensions and succeeds at once on the empty rest |
| Resolve.CreateDirectoriesRecursively | fs_operations.c:290-346 | the empty path is refused and `.` succeeds, both changing nothing |
| Resolve.MkdirsSingleExists | fs_operations.c:324-342 | after one successful walk over a single name the directory is found, and a second walk changes nothing |
| Resolve.MkdirsHome | fs_operations.c:301-306 | a path starting with `~` is created from the root whatever the start directory, with the `~` and one following `/` dropped |
| Resolve.TokenThenSlash | fs_operations.c:310-314 | a slash-free token of at most 255 bytes followed by `/` is read whole and the `/` consumed |
| Resolve.MkdirsSkipsDotAndEmpty | fs_operations.c:316 | empty and `.` components are skipped, and `.` alone succeeds with nothing changed |
| Resolve.MkdirsParent | fs_operations.c:317-322 | `..` moves to the directory the current directory's `..` entry names, and a failed lookup ends the call with nothing changed |
| Resolve.MkdirsNamed | fs_operations.c:324-342 | any other component is looked up as a directory in the current directory and the walk goes on there; a missing one is created with createDirectory and looked up again; a failed creation or second lookup ends the call in the state reached |
| Resolve.MkdirsNamedSucceeds | fs_operations.c:324-342 | a successful call found or created a directory under the component's name in the current directory, and it is the rest of the path walked from that directory |
| PathOps.ScanToken | fs_operations.c:312-314 | the copy loop computes Paths.NextToken |
| PathOps.Walk | fs_operations.c:666-694 | the token loop computes Resolve.Walk |
| PathOps.ResolvePath | fs_operations.c:652-698 | resolvePath computes Resolve.ResolvePath |
| PathOps.Mkdirs | fs_operations.c:309-343 | the token loop ends in Resolve.Mkdirs's state and outcome |
| PathOps.CreateDirectoriesRecursively | fs_operations.c:290-346 | createDirectoriesRecursively ends in Resolve.CreateDirectoriesRecursively's state and outcome |

## Left out

- Disk I/O is left out: fopen, ftruncate, fseek, fread, fwrite, fflush and fsync. The data region is a sequence of blocks; readBlock and writeBlock fail only for an index past the region.
- The header's write and read (fs.c:114-116, 150-156) are left out. Mounting is modelled from the header value (`Layout.Mount`). Reading the bitmaps and the inode table back from the image after mount_fs restores the layout is not modelled.
- sync_fs, sync_inode and the printing in init_fs and elsewhere are left out. They only copy state to the image or the terminal.
- The clock is the `now` parameter of each operation, not time(NULL).
- malloc and calloc failures are not modelled. Allocation is assumed to succeed, so those -1 paths never happen.
- Null-pointer argument checks (`!name`, `!data`, `!buffer`) have no counterpart: every argument is a value.
- The callers in main.c, core_utils.c and utils.c (command parsing, user accounts, listing) are not part of this model.
- Chain walks (dirFindEntry, dirAddEntry, dirRemoveEntry, freeInode, addContentToInode) carry a bound. Where the source would loop or recurse for ever on a cyclic next_inode chain, the model reports Diverges after that bound: 128 links, or 256 for a removal.
- Content.ReadChain: readContentFromInode stops once size bytes are copied, so a cycle that holds data ends in the source. The model's bound counts only links in a row that copy nothing and is reset by every inode that copies a byte. 128 such links have met some inode twice with nothing copied in between, and from there the source repeats that cycle for ever. Content.SelfLinkedReads proves that the simplest cycle with data reads in full. That a Diverges result always stands for a loop of the source is argued here, not proved: within those links nothing is copied, so the read is at the same inode with the same bytes still wanted twice.
- FileSystem.Fs.FreeInode: after a Diverges result the state is whatever the bounded walk reached. It is not specified further.
- DirOps.RemoveEntry: after a Diverges result the state is not specified. The same holds for DirOps.RemoveInChain, DirOps.RemoveRound, DirOps.RemoveStep, DirOps.RemoveInSlots, DirOps.RemoveAt, DirOps.Unlink and DirOps.ReleaseTarget.
- LifecycleOps.DeleteDirectory: after a Diverges result the state is not specified.
- LifecycleOps.DeleteFile: after a Diverges result the state is not specified.
- LifecycleOps.DeleteSymlink: after a Diverges result the state is not specified.
- Undefined behaviour is turned into errors. An inode index read from disk or from a link that the source would use past the inode table gives BadIndex or a non-match.
- createSymlink, readContentFromInode and deleteSymlink index the table with an unchecked caller argument. There the model requires the index to be in range.
- The createDirectory `.`/`..` block is written from a 504-byte array as 512 bytes. The model takes the 8 trailing bytes as zeros.
- resolvePath copies a component into a 256-byte buffer without a bound. The model reads components of any length, as if the buffer were large enough.
- ContentFacts.AppendThenRead: proved only for a file held in its own inode with no successor, within 6144 bytes (12 blocks of 512), with block 0 in use. It also needs read access and a buffer with room for the closing NUL, as the read itself demands.
- ContentFacts.AppendHeld: the append-then-read round trip is proved only for files that fit one inode (at most 12 blocks) and have no successor inode. Appends that chain further inodes are modelled by Content.AddContent but carry no content property.
- Content.AddContent: its contract does not relate the data written to the file's bytes. That relation is ContentFacts.AppendHeld's.
- Lifecycle.DeleteDirectory: its own contract states only that the dimensions are kept. The refusals are in Lifecycle.DeleteDirectoryRefuses and the effect is in LifecycleEffects.DeleteDirectoryEffect.
- DirWalk.AddEntryInChain: it assumes that block 0 and the root inode are in use, as init_fs leaves them (Init.InitZeroReserved) and as first-fit allocation keeps them. Without block 0 in use the allocator could hand block 0 to a slot, where dirFindEntry would skip it.
- DirWalk.AddEntryListed: it also assumes that every inode of the directory's chain is marked used, so that an extension cannot take one of them. That holds after init_fs (Init.InitRootListed). That the other operations keep it is not proved.
- LifecycleEffects.CreateDirectoryEffect: the place of the entry is stated as the first-fit place along the parent's chain, and as a slot of that chain when block 0 and the root are in use. That the parent's listing then holds it is DirWalk.AddEntryListed's statement, which is not restated here.
- LifecycleEffects.CreateFileEffect: as for CreateDirectoryEffect.
- LifecycleEffects.CreateSymlinkEffect: as for CreateDirectoryEffect.
- LifecycleEffects.DeleteFileEffect: the removed entry is stated in the state after the file's blocks were freed. Freeing touches only the block bitmap, so the walk reads the same blocks, but that is not restated in terms of the state before.
- Source behaviour modelled as written, not corrected:
  - init_fs's root `.` lands in block 0, which a zero slot cannot name, so it is lost.
  - The root's `..` entry has index 0, the free marker, so the first name created in the root overwrites it (Init.InitParentIsLost).
  - dirRemoveEntry ignores the requested type, so deleteFile and deleteDirectory remove the first used entry with the name, whatever its type.
  - dirRemoveEntry continues into inode 0 (the root) when next_inode is 0.
  - resolvePath chooses the lookup type by whether a slash remains after the separator it has just consumed. In `a/b` the component `a` is looked up with any type. In `a/b/c` it is looked up as a directory, a lookup that never matches a symlink entry.
  - createSymlink does not check allocateInode's -1 before indexing the inode table with it. The model reports OutOfInodes with nothing changed there.
- splitPath writes into caller buffers. The model returns the two strings as a pair.
