/** What a successful create or delete leaves behind: the new inode's record and, for a
    directory, its `.`/`..` block; the new entry, placed first-fit along the parent's chain;
    the entry dirRemoveEntry removed; the released inode and blocks of a deleted object. */
module LifecycleEffects {
  import opened FsTypes
  import opened DirEntry
  import opened Store
  import opened Directory
  import opened DirUpdate
  import opened DirWalk
  import opened DirRemoval
  import opened Lifecycle

  /** The staged directory is the first free inode, and it is now used. */
  lemma StageDirectoryInode(s: FsState, parent: nat, name: seq<byte>, uid: uint32, now: int)
    requires Shaped(s) && parent < MaxInodes && StageDirectory(s, parent, name, uid, now).1.Ok?
    ensures var (t, r) := StageDirectory(s, parent, name, uid, now);
      var n := r.value;
      && n == AllocateInode(s).1 && !InodeUsed(s, n) && InodeUsed(t, n)
  {
    var (s1, n) := AllocateInode(s);
    var s2 := SetInode(s1, n, NewInode(Directory, name, uid, now));
    var (s3, nb) := AllocateBlock(s2);
    var s4 := SetInode(s3, n, WithSlot(s3.inodes[n], 0, nb));
    assert InodeUsed(s4, n);
  }

  /** Only the staged directory's record changes: it becomes the new directory record with one
      block in blocks[0]. */
  lemma StageDirectoryEffect(s: FsState, parent: nat, name: seq<byte>, uid: uint32, now: int)
    requires Shaped(s) && parent < MaxInodes && StageDirectory(s, parent, name, uid, now).1.Ok?
    ensures var (t, r) := StageDirectory(s, parent, name, uid, now);
      t.inodes == s.inodes[r.value := WithSlot(NewInode(Directory, name, uid, now), 0, t.inodes[r.value].blocks[0])]
  {
    var (s1, n) := AllocateInode(s);
    var s2 := SetInode(s1, n, NewInode(Directory, name, uid, now));
    var (s3, nb) := AllocateBlock(s2);
    assert s3.inodes == s2.inodes;
    var s4 := SetInode(s3, n, WithSlot(NewInode(Directory, name, uid, now), 0, nb));
    UpdateTwice(s.inodes, n, ZeroInode, NewInode(Directory, name, uid, now));
    UpdateTwice(s.inodes, n, NewInode(Directory, name, uid, now), WithSlot(NewInode(Directory, name, uid, now), 0, nb));
  }

  /** The block in blocks[0] of a staged directory is the first free data block, now used, and
      it is the only block written: it holds the `.`/`..` block. */
  lemma StageDirectoryBlocks(s: FsState, parent: nat, name: seq<byte>, uid: uint32, now: int)
    requires Shaped(s) && parent < MaxInodes && StageDirectory(s, parent, name, uid, now).1.Ok?
    ensures var (t, r) := StageDirectory(s, parent, name, uid, now);
      var nb := t.inodes[r.value].blocks[0];
      && nb == AllocateBlock(s).1 && nb < s.dataBlocks && !BlockUsed(s, nb) && BlockUsed(t, nb)
      && t.disk == s.disk[nb := DotBlock(r.value, parent)]
  {
    var (s1, n) := AllocateInode(s);
    var s2 := SetInode(s1, n, NewInode(Directory, name, uid, now));
    assert s2.blockBitmap == s.blockBitmap && s2.dataBlocks == s.dataBlocks;
    assert AllocateBlock(s2).1 == AllocateBlock(s).1;
    var (s3, nb) := AllocateBlock(s2);
    assert BlockUsed(s3, nb);
  }

  /** The block in blocks[0] of a staged directory holds `.` naming the directory and `..`
      naming the parent, and every other entry is free. */
  lemma StageDirectoryBlock(s: FsState, parent: nat, name: seq<byte>, uid: uint32, now: int, k: nat)
    requires Shaped(s) && parent < MaxInodes && StageDirectory(s, parent, name, uid, now).1.Ok?
    requires k < EntriesPerBlock
    ensures var (t, r) := StageDirectory(s, parent, name, uid, now);
      var b := t.disk[t.inodes[r.value].blocks[0]];
      && (k == 0 ==> EntryName(b, k) == DotName && EntryIndex(b, k) == r.value)
      && (k == 1 ==> EntryName(b, k) == DotDotName && EntryIndex(b, k) == parent)
      && (k >= 2 ==> EntryIndex(b, k) == 0)
  {
    StageDirectoryBlocks(s, parent, name, uid, now);
    var (t, r) := StageDirectory(s, parent, name, uid, now);
    DotBlockEntries(r.value, parent, k);
  }

  /** Staging allocates first-fit, so inodes and blocks in use stay in use: block 0 and the
      root inode among them. */
  lemma StageDirectoryReserves(s: FsState, parent: nat, name: seq<byte>, uid: uint32, now: int)
    requires Shaped(s) && parent < MaxInodes && StageDirectory(s, parent, name, uid, now).1.Ok?
    ensures var t := StageDirectory(s, parent, name, uid, now).0;
      && (ZeroReserved(s) ==> ZeroReserved(t))
      && (InodeUsed(s, RootInode) ==> InodeUsed(t, RootInode))
  {
    AllocateInodeFirstFit(s);
    var (s1, n) := AllocateInode(s);
    var s2 := SetInode(s1, n, NewInode(Directory, name, uid, now));
    AllocateBlockFirstFit(s2);
  }

  /** A created directory passed the guards, was staged, and its entry went, under the name
      cut to 31 bytes, where the first-fit walk along the parent's chain puts it: into an inode
      of that chain, when block 0 and the root inode were in use. */
  lemma CreateDirectoryEffect(s: FsState, parent: int, name: seq<byte>, uid: uint32, now: int)
    requires Shaped(s) && NoNul(name) && CreateDirectory(s, parent, name, uid, now).1 == Success
    ensures 0 <= parent < MaxInodes && !FindEntry(s, parent, name, Directory).Ok?
    ensures parent == RootInode || Writable(s, parent, uid)
    ensures StageDirectory(s, parent, name, uid, now).1.Ok?
    ensures var (t, r) := StageDirectory(s, parent, name, uid, now);
      AddedFirstFit(t, parent, ChainFuel, CreateDirectory(s, parent, name, uid, now).0, name, r.value, now)
    ensures ZeroReserved(s) && InodeUsed(s, RootInode) ==>
      InChain(CreateDirectory(s, parent, name, uid, now).0, parent, Truncate(name), StageDirectory(s, parent, name, uid, now).1.value)
  {
    var (t, r) := StageDirectory(s, parent, name, uid, now);
    AddEntryFirstFit(t, parent, name, Directory, r.value, now);
    StageDirectoryReserves(s, parent, name, uid, now);
    if ZeroReserved(s) && InodeUsed(s, RootInode) {
      AddEntryInChain(t, parent, name, Directory, r.value, now);
    }
  }

  /** The staged file is the first free inode, now used, holding the new regular record. */
  lemma StageFileEffect(s: FsState, name: seq<byte>, uid: uint32, now: int)
    requires Shaped(s) && StageFile(s, name, uid, now).1.Ok?
    ensures var (t, r) := StageFile(s, name, uid, now);
      && r.value == AllocateInode(s).1 && !InodeUsed(s, r.value) && InodeUsed(t, r.value)
      && t.inodes == s.inodes[r.value := NewInode(Regular, name, uid, now)]
      && t.disk == s.disk && t.blockBitmap == s.blockBitmap
  {
    var (s1, n) := AllocateInode(s);
    assert InodeUsed(s1, n);
    UpdateTwice(s.inodes, n, ZeroInode, NewInode(Regular, name, uid, now));
  }

  /** Staging a file keeps every inode in use in use, and touches no block. */
  lemma StageFileReserves(s: FsState, name: seq<byte>, uid: uint32, now: int)
    requires Shaped(s) && StageFile(s, name, uid, now).1.Ok?
    ensures var t := StageFile(s, name, uid, now).0;
      && (ZeroReserved(s) ==> ZeroReserved(t))
      && (InodeUsed(s, RootInode) ==> InodeUsed(t, RootInode))
  {
    AllocateInodeFirstFit(s);
  }

  /** A created file passed the guards of createDirectory, and its entry went where the
      first-fit walk along the parent's chain puts it, into an inode of that chain when block 0
      and the root inode were in use. */
  lemma CreateFileEffect(s: FsState, parent: int, name: seq<byte>, uid: uint32, now: int)
    requires Shaped(s) && NoNul(name) && CreateFile(s, parent, name, uid, now).1 == Success
    ensures 0 <= parent < MaxInodes && !FindEntry(s, parent, name, Regular).Ok?
    ensures parent == RootInode || Writable(s, parent, uid)
    ensures StageFile(s, name, uid, now).1.Ok?
    ensures var (t, r) := StageFile(s, name, uid, now);
      AddedFirstFit(t, parent, ChainFuel, CreateFile(s, parent, name, uid, now).0, name, r.value, now)
    ensures ZeroReserved(s) && InodeUsed(s, RootInode) ==>
      InChain(CreateFile(s, parent, name, uid, now).0, parent, Truncate(name), StageFile(s, name, uid, now).1.value)
  {
    var (t, r) := StageFile(s, name, uid, now);
    AddEntryFirstFit(t, parent, name, Regular, r.value, now);
    StageFileReserves(s, name, uid, now);
    if ZeroReserved(s) && InodeUsed(s, RootInode) {
      AddEntryInChain(t, parent, name, Regular, r.value, now);
    }
  }

  /** The staged symlink records its target and takes the target's permissions. */
  lemma StageSymlinkEffect(s: FsState, target: nat, name: seq<byte>, uid: uint32, now: int)
    requires Shaped(s) && target < MaxInodes && StageSymlink(s, target, name, uid, now).1.Ok?
    ensures var (t, r) := StageSymlink(s, target, name, uid, now);
      var n := r.value;
      && n == AllocateInode(s).1 && !InodeUsed(s, n) && InodeUsed(t, n)
      && t.inodes[n].kind == Symlink && t.inodes[n].linkTarget == target && t.inodes[n].name == Truncate(name)
      && t.inodes[n].ownerUid == uid && t.inodes[n].creatorUid == uid && t.inodes[n].size == 0
      && t.inodes[n].permissions == (if target == n then 0 else s.inodes[target].permissions)
      && (forall i :: 0 <= i < MaxInodes && i != n ==> t.inodes[i] == s.inodes[i])
      && t.disk == s.disk && t.blockBitmap == s.blockBitmap
  {
  }

  /** Staging a symlink keeps every inode in use in use, and touches no block. */
  lemma StageSymlinkReserves(s: FsState, target: nat, name: seq<byte>, uid: uint32, now: int)
    requires Shaped(s) && target < MaxInodes && StageSymlink(s, target, name, uid, now).1.Ok?
    ensures var t := StageSymlink(s, target, name, uid, now).0;
      && (ZeroReserved(s) ==> ZeroReserved(t))
      && (InodeUsed(s, RootInode) ==> InodeUsed(t, RootInode))
  {
    AllocateInodeFirstFit(s);
  }

  /** A created symlink passed its guards, and its entry went where the first-fit walk along
      the parent's chain puts it, into an inode of that chain when block 0 and the root inode
      were in use. */
  lemma CreateSymlinkEffect(s: FsState, parent: nat, target: nat, name: seq<byte>, uid: uint32, now: int)
    requires Shaped(s) && parent < MaxInodes && target < MaxInodes && NoNul(name)
    requires CreateSymlink(s, parent, target, name, uid, now).1 == Success
    ensures !FindEntry(s, parent, name, Symlink).Ok? && Writable(s, parent, uid)
    ensures StageSymlink(s, target, name, uid, now).1.Ok?
    ensures var (t, r) := StageSymlink(s, target, name, uid, now);
      AddedFirstFit(t, parent, ChainFuel, CreateSymlink(s, parent, target, name, uid, now).0, name, r.value, now)
    ensures ZeroReserved(s) && InodeUsed(s, RootInode) ==>
      InChain(CreateSymlink(s, parent, target, name, uid, now).0, parent, Truncate(name), StageSymlink(s, target, name, uid, now).1.value)
  {
    var (t, r) := StageSymlink(s, target, name, uid, now);
    assert AddEntry(t, parent, name, Symlink, r.value, now).1 == Success;
    AddEntryFirstFit(t, parent, name, Symlink, r.value, now);
    StageSymlinkReserves(s, target, name, uid, now);
    if ZeroReserved(s) && InodeUsed(s, RootInode) {
      AddEntryInChain(t, parent, name, Symlink, r.value, now);
    }
  }

  /** A symlink whose entry could not be added is freed again, and that freeing always
      completes: dirAddEntry leaves the new link's record, whose next_inode is 0, alone. */
  lemma CreateSymlinkUndoCompletes(s: FsState, parent: nat, target: nat, name: seq<byte>, uid: uint32, now: int)
    requires Shaped(s) && parent < MaxInodes && target < MaxInodes && StageSymlink(s, target, name, uid, now).1.Ok?
    ensures var (t, r) := StageSymlink(s, target, name, uid, now);
      FreeInode(AddEntry(t, parent, name, Symlink, r.value, now).0, r.value, ChainFuel).Ok?
  {
    var (t, r) := StageSymlink(s, target, name, uid, now);
    StageSymlinkEffect(s, target, name, uid, now);
    AddEntryKeeps(t, parent, name, Symlink, r.value, now, r.value);
    FreeInodeOfLast(AddEntry(t, parent, name, Symlink, r.value, now).0, r.value, ChainFuel);
  }

  /** A deleted directory passed the guards (write access, nothing but `.` and `..` in its head
      blocks); dirRemoveEntry then removed the first used entry of that name along its walk
      from the parent, whatever the type of its target, and the directory's inode is free. */
  lemma DeleteDirectoryEffect(s: FsState, parent: int, name: seq<byte>, uid: uint32, now: int)
    requires Shaped(s) && DeleteDirectory(s, parent, name, uid, now).1 == Success
    ensures 0 <= parent < MaxInodes && FindEntry(s, parent, name, Directory).Ok?
    ensures var target := FindEntry(s, parent, name, Directory).value;
      var t := DeleteDirectory(s, parent, name, uid, now).0;
      && Writable(s, target, uid) && CheckEmpty(s, s.inodes[target].blocks) == Success
      && RemovedFirst(s, parent, name, now, RemoveEntry(s, parent, name, now))
      && t.inodes[target] == ZeroInode && !InodeUsed(t, target)
  {
    var target := FindEntry(s, parent, name, Directory).value;
    assert Writable(s, target, uid) && CheckEmpty(s, s.inodes[target].blocks) == Success;
    var t := RemoveEntry(s, parent, name, now).0;
    assert RemoveEntry(s, parent, name, now).1 == Success;
    assert DeleteDirectory(s, parent, name, uid, now).0 == FreeInode(t, target, ChainFuel).value;
    RemoveEntryFirst(s, parent, name, now);
    FreeInodeReleasesInode(t, target, ChainFuel);
  }

  /** Removal of an entry never marks a block used. */
  lemma RemovalSetsNoBlock(s: FsState, dir: int, name: seq<byte>, now: int, x: nat)
    requires Shaped(s) && RemoveEntry(s, dir, name, now).1 == Success && x < |s.blockBitmap| * 8
    requires !BlockUsed(s, x)
    ensures !BlockUsed(RemoveEntry(s, dir, name, now).0, x)
  {
    RemoveEntryFirst(s, dir, name, now);
    var bn := FirstHolding(s, RemovalWalk(s, dir, RemoveFuel).0, name).value;
    var j := FirstNamed(s.disk[bn], name, 0).value;
    RemoveAtEffect(s, dir, bn, s.disk[bn], j, now);
  }

  /** A deleted file passed the guards, every data block it listed is free, dirRemoveEntry
      removed the first used entry of that name along its walk from the parent in the state
      after those blocks were freed (whatever the type of its target), and its inode is free. */
  lemma DeleteFileEffect(s: FsState, parent: int, name: seq<byte>, uid: uint32, now: int, x: nat)
    requires Shaped(s) && DeleteFile(s, parent, name, uid, now).1 == Success
    requires x < |s.blockBitmap| * 8
    ensures 0 <= parent < MaxInodes && FindEntry(s, parent, name, Regular).Ok?
    ensures var target := FindEntry(s, parent, name, Regular).value;
      var t := DeleteFile(s, parent, name, uid, now).0;
      && Writable(s, target, uid)
      && (var s1 := FreeSlotBlocks(s, s.inodes[target].blocks);
          RemovedFirst(s1, parent, name, now, RemoveEntry(s1, parent, name, now)))
      && (FreedBy(s, s.inodes[target].blocks, x) ==> !BlockUsed(t, x))
      && t.inodes[target] == ZeroInode && !InodeUsed(t, target)
  {
    var target := FindEntry(s, parent, name, Regular).value;
    var s1 := FreeSlotBlocks(s, s.inodes[target].blocks);
    var t1 := RemoveEntry(s1, parent, name, now).0;
    RemoveEntryFirst(s1, parent, name, now);
    FreeInodeReleasesInode(t1, target, ChainFuel);
    if FreedBy(s, s.inodes[target].blocks, x) {
      FreeSlotBlocksEffect(s, s.inodes[target].blocks, x);
      RemovalSetsNoBlock(s1, parent, name, now, x);
      FreeInodeOnlyReleases(t1, target, ChainFuel);
    }
  }

  /** A deleted symlink was a symlink the caller may write; dirRemoveEntry removed the first
      used entry carrying the link's stored name along its walk from the parent, whatever the
      type of its target, and the link's inode is free. */
  lemma DeleteSymlinkEffect(s: FsState, parent: int, target: nat, uid: uint32, now: int)
    requires Shaped(s) && target < MaxInodes && DeleteSymlink(s, parent, target, uid, now).1 == Success
    ensures 0 <= parent < MaxInodes && target != 0
    ensures s.inodes[target].kind == Symlink && Writable(s, target, uid)
    ensures RemovedFirst(s, parent, s.inodes[target].name, now, RemoveEntry(s, parent, s.inodes[target].name, now))
    ensures var t := DeleteSymlink(s, parent, target, uid, now).0;
      t.inodes[target] == ZeroInode && !InodeUsed(t, target)
  {
    RemoveEntryFirst(s, parent, s.inodes[target].name, now);
    FreeInodeReleasesInode(RemoveEntry(s, parent, s.inodes[target].name, now).0, target, ChainFuel);
  }
}
