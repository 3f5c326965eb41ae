/** The in-memory part of init_fs (fs.c:65-100): zeroed bitmaps and inode table, a data region
    of zero blocks, and the root directory created as the first allocated inode with its `.`
    and `..` entries added through dirAddEntry. */
module Init {
  import opened FsTypes
  import opened DirEntry
  import opened Store
  import opened Permissions
  import opened Directory
  import opened DirUpdate
  import Bitmap
  import Layout
  import DirWalk
  import DirListing

  /** A layout whose bitmaps can hold a bit per unit and whose block count fits an int. */
  predicate Fits(l: Layout.Layout) {
    l.dataBlocks <= l.blockBitmapBytes * 8 && l.inodeBitmapBytes * 8 >= MaxInodes && l.dataBlocks < 0x8000_0000
  }

  lemma ComputedLayoutFits()
    ensures Fits(Layout.ComputeLayout())
  {
  }

  function ZeroBytes(n: nat): (z: seq<bv8>)
    ensures |z| == n && forall i :: 0 <= i < n ==> z[i] == 0
  {
    seq(n, _ => 0)
  }

  /** The state calloc and ftruncate leave: every bit clear, every record and block zero. */
  function FreshState(l: Layout.Layout): (s: FsState)
    requires Fits(l)
    ensures Shaped(s)
  {
    FsState(ZeroBytes(l.blockBitmapBytes), ZeroBytes(l.inodeBitmapBytes), seq(MaxInodes, _ => ZeroInode),
            seq(l.dataBlocks, _ => ZeroBlock), l.dataBlocks)
  }

  const RootName: seq<byte> := [Slash]

  /** The root record init_fs writes over the zeroed record: a directory named "/", both dates
      `now`, size 0, owner and creator 0, permissions PERM_ALL. */
  function RootRecord(now: int): Inode {
    ZeroInode.(kind := Directory, size := 0, created := now, modified := now, permissions := PermAll,
               name := RootName, ownerUid := 0, creatorUid := 0)
  }

  /** Allocating the first inode of a fresh state gives inode 0, the root. */
  lemma FreshAllocatesRoot(l: Layout.Layout)
    requires Fits(l)
    ensures AllocateInode(FreshState(l)).1 == RootInode
  {
    var s := FreshState(l);
    Bitmap.ZeroBitmapClear(s.inodeBitmap, 0);
  }

  lemma ZeroBitmapsClear(l: Layout.Layout)
    requires Fits(l)
    ensures var s := FreshState(l);
      && (forall b :: 0 <= b < |s.blockBitmap| * 8 ==> !BlockUsed(s, b))
      && (forall i :: 0 <= i < |s.inodeBitmap| * 8 ==> !InodeUsed(s, i))
  {
    var s := FreshState(l);
    forall b | 0 <= b < |s.blockBitmap| * 8
      ensures !BlockUsed(s, b)
    {
      Bitmap.ZeroBitmapClear(s.blockBitmap, b);
    }
    forall i | 0 <= i < |s.inodeBitmap| * 8
      ensures !InodeUsed(s, i)
    {
      Bitmap.ZeroBitmapClear(s.inodeBitmap, i);
    }
  }

  /** The state after the root record is written, before its entries are added. */
  function RootState(l: Layout.Layout, now: int): (s: FsState)
    requires Fits(l)
    ensures Shaped(s) && s.dataBlocks == l.dataBlocks
    ensures s.inodes[RootInode] == RootRecord(now)
    ensures forall i :: 0 < i < MaxInodes ==> s.inodes[i] == ZeroInode
    ensures forall i :: 0 <= i < |s.inodeBitmap| * 8 ==> InodeUsed(s, i) == (i == RootInode)
    ensures forall b :: 0 <= b < |s.blockBitmap| * 8 ==> !BlockUsed(s, b)
    ensures forall b :: 0 <= b < |s.disk| ==> s.disk[b] == ZeroBlock
  {
    FreshAllocatesRoot(l);
    ZeroBitmapsClear(l);
    var (s1, root) := AllocateInode(FreshState(l));
    SetInode(s1, root, RootRecord(now))
  }

  /** The state between the two AddEntry calls of init_fs. */
  function DotState(l: Layout.Layout, now: int): (s: FsState)
    requires Fits(l)
    ensures Shaped(s) && s.dataBlocks == l.dataBlocks == |s.disk|
  {
    AddEntry(RootState(l, now), RootInode, DotName, Directory, RootInode, now).0
  }

  /** init_fs: the root directory and its two entries; the results of the two dirAddEntry calls
      are ignored, as in the source. */
  function InitFs(l: Layout.Layout, now: int): (s: FsState)
    requires Fits(l)
    ensures Shaped(s) && s.dataBlocks == l.dataBlocks == |s.disk|
  {
    AddEntry(DotState(l, now), RootInode, DotDotName, Directory, RootInode, now).0
  }

  // ---------------------------------------------------------------- the root after init_fs

  /** A directory inode with no blocks holds no entry. */
  lemma {:induction false} EmptySlotsFindNothing(s: FsState, slots: seq<uint32>, name: seq<byte>, t: InodeType)
    requires Shaped(s) && forall k :: 0 <= k < |slots| ==> slots[k] == 0
    ensures FindInSlots(s, slots, name, t) == Ok(None)
    decreases |slots|
  {
    if |slots| > 0 {
      EmptySlotsFindNothing(s, slots[1..], name, t);
    }
  }

  /** An entry added to a directory inode without blocks or successor, while a block is free,
      goes into slot 2, which receives the first free block. */
  lemma AddToBlocklessDirectory(s: FsState, dir: nat, name: seq<byte>, index: uint32, now: int)
    requires Shaped(s) && dir < MaxInodes && |name| < MaxNameSize
    requires s.inodes[dir].kind == Directory && s.inodes[dir].blocks == NoBlocks && s.inodes[dir].nextInode == 0
    requires AllocateBlock(s).1 >= 0
    ensures AddEntry(s, dir, name, Directory, index, now).1 == Success
    ensures PlacedAt(s, AddEntry(s, dir, name, Directory, index, now).0, dir, FirstAddSlot, name, index, now)
  {
    EmptySlotsFindNothing(s, s.inodes[dir].blocks, name, Directory);
    assert FindEntry(s, dir, name, Directory) == Err(NotFound);
    ZeroBlockEntries(0);
    assert SlotBlock(s, dir, FirstAddSlot) == ZeroBlock;
    PlaceInSlot(s, dir, name, index, now, FirstAddSlot);
    var t := AddInSlots(s, dir, name, index, now, FirstAddSlot).0;
    assert AddStep(s, dir, name, index, now) == Finished(t, Success);
  }

  /** The first AddEntry of init_fs: root has no blocks, so `.` is not found, slot 2 receives
      the first free block, which is block 0, and `.` becomes its entry 0. */
  lemma AddDot(l: Layout.Layout, now: int)
    requires Fits(l) && l.dataBlocks >= 2
    ensures var r := RootState(l, now);
      && AllocateBlock(r).1 == 0
      && AddEntry(r, RootInode, DotName, Directory, RootInode, now).1 == Success
      && PlacedAt(r, AddEntry(r, RootInode, DotName, Directory, RootInode, now).0, RootInode, FirstAddSlot, DotName, RootInode, now)
  {
    var r := RootState(l, now);
    assert AllocateBlock(r).1 == 0;
    AddToBlocklessDirectory(r, RootInode, DotName, RootInode, now);
  }

  /** Between the two calls: the root record has grown by one entry but its slot 2 still says 0,
      block 0 is used and holds `.` naming inode 0 in entry 0, block 1 is free. */
  lemma DotStateFacts(l: Layout.Layout, now: int)
    requires Fits(l) && l.dataBlocks >= 2
    ensures var d := DotState(l, now);
      && d.inodes[0] == RootRecord(now).(size := EntryBytes, modified := now)
      && (forall i :: 0 < i < MaxInodes ==> d.inodes[i] == ZeroInode)
      && (forall i :: 0 <= i < |d.inodeBitmap| * 8 ==> InodeUsed(d, i) == (i == RootInode))
      && BlockUsed(d, 0) && (forall b :: 1 <= b < |d.blockBitmap| * 8 ==> !BlockUsed(d, b))
      && (forall b :: 0 < b < |d.disk| ==> d.disk[b] == ZeroBlock)
  {
    var r := RootState(l, now);
    var d := DotState(l, now);
    AddDot(l, now);
    assert PlacedAt(r, d, RootInode, FirstAddSlot, DotName, RootInode, now);
    assert NoBlocks[2 := 0] == NoBlocks;
  }

  /** Block 0 after the first call: `.` naming inode 0 in entry 0, every other entry free. */
  lemma DotStateBlock(l: Layout.Layout, now: int, k: nat)
    requires Fits(l) && l.dataBlocks >= 2 && k < EntriesPerBlock
    ensures var b := DotState(l, now).disk[0];
      && (k == 0 ==> EntryName(b, k) == DotName && EntryIndex(b, k) == RootInode)
      && (k != 0 ==> EntryIndex(b, k) == 0)
  {
    var r := RootState(l, now);
    var d := DotState(l, now);
    AddDot(l, now);
    assert PlacedAt(r, d, RootInode, FirstAddSlot, DotName, RootInode, now);
    assert FirstFree(ZeroBlock, 0) == Some(0) by { ZeroBlockEntries(0); }
    assert d.disk[0] == PutEntry(ZeroBlock, 0, DotName, RootInode);
    PutEntryRead(ZeroBlock, 0, DotName, RootInode, k);
    ZeroBlockEntries(k);
  }

  /** The second AddEntry of init_fs: `..` is not found either (slot 2 is still 0), so slot 2
      receives the next free block, block 1, and `..` becomes its entry 0. */
  lemma AddDotDot(l: Layout.Layout, now: int)
    requires Fits(l) && l.dataBlocks >= 2
    ensures var d := DotState(l, now);
      && AllocateBlock(d).1 == 1
      && AddEntry(d, RootInode, DotDotName, Directory, RootInode, now).1 == Success
      && PlacedAt(d, AddEntry(d, RootInode, DotDotName, Directory, RootInode, now).0, RootInode, FirstAddSlot, DotDotName, RootInode, now)
  {
    var d := DotState(l, now);
    DotStateFacts(l, now);
    assert AllocateBlock(d).1 == 1 by {
      var a := AllocateBlock(d).1;
      assert !BlockUsed(d, 1);
      assert a != -1 ==> a != 0 && !(a > 1);
    }
    AddToBlocklessDirectory(d, RootInode, DotDotName, RootInode, now);
  }

  /** What placing `..` in slot 2 of the root does to the records and bitmaps. */
  lemma PlaceDotDotRecords(d: FsState, t: FsState, now: int)
    requires Shaped(d) && Shaped(t) && d.dataBlocks >= 2
    requires d.inodes[0] == RootRecord(now).(size := EntryBytes, modified := now)
    requires forall i :: 0 < i < MaxInodes ==> d.inodes[i] == ZeroInode
    requires forall i :: 0 <= i < |d.inodeBitmap| * 8 ==> InodeUsed(d, i) == (i == RootInode)
    requires BlockUsed(d, 0) && forall b :: 1 <= b < |d.blockBitmap| * 8 ==> !BlockUsed(d, b)
    requires forall b :: 0 < b < |d.disk| ==> d.disk[b] == ZeroBlock
    requires AllocateBlock(d).1 == 1
    requires PlacedAt(d, t, RootInode, FirstAddSlot, DotDotName, RootInode, now)
    ensures t.inodes[0] == RootRecord(now).(size := 2 * EntryBytes, modified := now, blocks := NoBlocks[2 := 1])
    ensures forall i :: 0 < i < MaxInodes ==> t.inodes[i] == ZeroInode
    ensures forall i :: 0 <= i < |t.inodeBitmap| * 8 ==> InodeUsed(t, i) == (i == RootInode)
    ensures forall b :: 0 <= b < |t.blockBitmap| * 8 ==> BlockUsed(t, b) == (b < 2)
  {
    var a := AllocateBlock(d).0;
    AllocateBlockFirstFit(d);
    forall b | 0 <= b < |t.blockBitmap| * 8
      ensures BlockUsed(t, b) == (b < 2)
    {
      assert BlockUsed(t, b) == BlockUsed(a, b);
    }
    forall i | 0 <= i < |t.inodeBitmap| * 8
      ensures InodeUsed(t, i) == (i == RootInode)
    {
      assert InodeUsed(t, i) == InodeUsed(d, i);
    }
  }

  /** What placing `..` in slot 2 of the root does to the disk: block 1 gets `..` first. */
  lemma PlaceDotDotDisk(d: FsState, t: FsState, now: int)
    requires Shaped(d) && Shaped(t) && d.dataBlocks >= 2
    requires d.inodes[0] == RootRecord(now).(size := EntryBytes, modified := now)
    requires forall i :: 0 < i < MaxInodes ==> d.inodes[i] == ZeroInode
    requires forall i :: 0 <= i < |d.inodeBitmap| * 8 ==> InodeUsed(d, i) == (i == RootInode)
    requires BlockUsed(d, 0) && forall b :: 1 <= b < |d.blockBitmap| * 8 ==> !BlockUsed(d, b)
    requires forall b :: 0 < b < |d.disk| ==> d.disk[b] == ZeroBlock
    requires AllocateBlock(d).1 == 1
    requires PlacedAt(d, t, RootInode, FirstAddSlot, DotDotName, RootInode, now)
    ensures forall b :: 1 < b < |t.disk| ==> t.disk[b] == ZeroBlock
    ensures t.disk[0] == d.disk[0]
    ensures EntryName(t.disk[1], 0) == DotDotName && EntryIndex(t.disk[1], 0) == RootInode
    ensures forall k :: 0 < k < EntriesPerBlock ==> EntryName(t.disk[1], k) == [] && EntryIndex(t.disk[1], k) == 0
  {
    assert t.disk == d.disk[1 := PutEntry(ZeroBlock, 0, DotDotName, RootInode)] by {
      assert d.inodes[0].blocks[FirstAddSlot] == 0;
      assert FirstFree(ZeroBlock, 0) == Some(0) by { ZeroBlockEntries(0); }
    }
    DotDotBlockEntries(t.disk[1]);
  }

  /** The block holding only `..` naming the root. */
  lemma DotDotBlockEntries(b: Block)
    requires b == PutEntry(ZeroBlock, 0, DotDotName, RootInode)
    ensures EntryName(b, 0) == DotDotName && EntryIndex(b, 0) == RootInode
    ensures forall k :: 0 < k < EntriesPerBlock ==> EntryName(b, k) == [] && EntryIndex(b, k) == 0
  {
    PutEntryRead(ZeroBlock, 0, DotDotName, RootInode, 0);
    forall k | 0 < k < EntriesPerBlock
      ensures EntryName(b, k) == [] && EntryIndex(b, k) == 0
    {
      PutEntryRead(ZeroBlock, 0, DotDotName, RootInode, k);
      ZeroBlockEntries(k);
    }
  }

  /** What placing `..` in slot 2 of the root does to the state between the two calls. */
  lemma PlaceDotDot(d: FsState, t: FsState, now: int)
    requires Shaped(d) && Shaped(t) && d.dataBlocks >= 2
    requires d.inodes[0] == RootRecord(now).(size := EntryBytes, modified := now)
    requires forall i :: 0 < i < MaxInodes ==> d.inodes[i] == ZeroInode
    requires forall i :: 0 <= i < |d.inodeBitmap| * 8 ==> InodeUsed(d, i) == (i == RootInode)
    requires BlockUsed(d, 0) && forall b :: 1 <= b < |d.blockBitmap| * 8 ==> !BlockUsed(d, b)
    requires forall b :: 0 < b < |d.disk| ==> d.disk[b] == ZeroBlock
    requires AllocateBlock(d).1 == 1
    requires PlacedAt(d, t, RootInode, FirstAddSlot, DotDotName, RootInode, now)
    ensures t.inodes[0] == RootRecord(now).(size := 2 * EntryBytes, modified := now, blocks := NoBlocks[2 := 1])
    ensures forall i :: 0 < i < MaxInodes ==> t.inodes[i] == ZeroInode
    ensures forall i :: 0 <= i < |t.inodeBitmap| * 8 ==> InodeUsed(t, i) == (i == RootInode)
    ensures forall b :: 0 <= b < |t.blockBitmap| * 8 ==> BlockUsed(t, b) == (b < 2)
    ensures forall b :: 1 < b < |t.disk| ==> t.disk[b] == ZeroBlock
    ensures t.disk[0] == d.disk[0]
    ensures EntryName(t.disk[1], 0) == DotDotName && EntryIndex(t.disk[1], 0) == RootInode
    ensures forall k :: 0 < k < EntriesPerBlock ==> EntryName(t.disk[1], k) == [] && EntryIndex(t.disk[1], k) == 0
  {
    PlaceDotDotRecords(d, t, now);
    PlaceDotDotDisk(d, t, now);
  }

  /** After init_fs only inode 0 is used: the root, a directory named "/" holding two records'
      worth of size, with its only block, block 1, in slot 2. */
  lemma InitRoot(l: Layout.Layout, now: int)
    requires Fits(l) && l.dataBlocks >= 2
    ensures InitFs(l, now).inodes[0] == RootRecord(now).(size := 2 * EntryBytes, modified := now, blocks := NoBlocks[2 := 1])
    ensures forall i :: 0 < i < MaxInodes ==> InitFs(l, now).inodes[i] == ZeroInode
    ensures forall i :: 0 <= i < |InitFs(l, now).inodeBitmap| * 8 ==> InodeUsed(InitFs(l, now), i) == (i == RootInode)
  {
    DotStateFacts(l, now);
    AddDotDot(l, now);
    PlaceDotDot(DotState(l, now), InitFs(l, now), now);
  }

  /** After init_fs exactly blocks 0 and 1 are used: block 0 still holds `.` but no slot names
      it, block 1 holds `..`, and every other block is zero. */
  lemma InitBlocks(l: Layout.Layout, now: int)
    requires Fits(l) && l.dataBlocks >= 2
    ensures forall b :: 0 <= b < |InitFs(l, now).blockBitmap| * 8 ==> BlockUsed(InitFs(l, now), b) == (b < 2)
    ensures forall b :: 1 < b < |InitFs(l, now).disk| ==> InitFs(l, now).disk[b] == ZeroBlock
    ensures InitFs(l, now).disk[0] == DotState(l, now).disk[0]
  {
    DotStateFacts(l, now);
    AddDotDot(l, now);
    PlaceDotDot(DotState(l, now), InitFs(l, now), now);
  }

  /** init_fs leaves block 0 and the root inode in use, the state the lemmas about where
      dirAddEntry puts an entry start from. */
  lemma InitZeroReserved(l: Layout.Layout, now: int)
    requires Fits(l) && l.dataBlocks >= 2
    ensures ZeroReserved(InitFs(l, now)) && InodeUsed(InitFs(l, now), RootInode)
  {
    InitBlocks(l, now);
    InitRoot(l, now);
  }

  /** The root's chain after init_fs is the root alone, in use, and dirFindEntry can list it in
      full, so dirAddEntry on the root keeps it listed with the new entry. */
  lemma InitRootListed(l: Layout.Layout, now: int)
    requires Fits(l) && l.dataBlocks >= 2
    ensures DirWalk.ChainUsed(InitFs(l, now), RootInode)
    ensures DirListing.ChainListing(InitFs(l, now), RootInode, ChainFuel).Ok?
  {
    var s := InitFs(l, now);
    InitRoot(l, now);
    assert DirWalk.ChainOf(s, RootInode, ChainFuel) == [RootInode];
    assert DirWalk.SlotsReadable(s, s.inodes[RootInode].blocks);
    DirWalk.ChainListingReadable(s, RootInode, ChainFuel);
  }

  /** The root after init_fs in terms of its entries: `..` is found and names the root itself,
      while `.` is not found at all, since the block holding it is named by no slot. */
  lemma RootEntries(t: FsState, now: int)
    requires Shaped(t) && t.dataBlocks >= 2
    requires t.inodes[0] == RootRecord(now).(size := 2 * EntryBytes, modified := now, blocks := NoBlocks[2 := 1])
    requires EntryName(t.disk[1], 0) == DotDotName && EntryIndex(t.disk[1], 0) == RootInode
    requires forall k :: 0 < k < EntriesPerBlock ==> EntryName(t.disk[1], k) == [] && EntryIndex(t.disk[1], k) == 0
    ensures FindEntry(t, RootInode, DotDotName, Directory) == Ok(RootInode)
    ensures FindEntry(t, RootInode, DotName, Directory) == Err(NotFound)
  {
    var slots := t.inodes[0].blocks;
    var b := t.disk[1];
    assert Matches(t, b, 0, DotDotName, Directory);
    assert FindInSlots(t, slots[2..], DotDotName, Directory) == Ok(Some(RootInode));
    assert FindInSlots(t, slots, DotDotName, Directory) == Ok(Some(RootInode)) by {
      assert slots[1..][1..] == slots[2..];
    }
    assert forall k :: 0 <= k < EntriesPerBlock ==> !Matches(t, b, k, DotName, Directory);
    EmptySlotsFindNothing(t, slots[3..], DotName, Directory);
    assert FindInBlock(t, b, DotName, Directory, 0) == None;
    assert slots[2..][1..] == slots[3..];
    assert FindInSlots(t, slots[2..], DotName, Directory) == Ok(None);
    assert FindInSlots(t, slots, DotName, Directory) == Ok(None) by {
      assert slots[1..][1..] == slots[2..];
    }
  }

  /** After init_fs, `..` in the root names the root and `.` is not listed. */
  lemma InitRootEntries(l: Layout.Layout, now: int)
    requires Fits(l) && l.dataBlocks >= 2
    ensures FindEntry(InitFs(l, now), RootInode, DotDotName, Directory) == Ok(RootInode)
    ensures FindEntry(InitFs(l, now), RootInode, DotName, Directory) == Err(NotFound)
  {
    DotStateFacts(l, now);
    AddDotDot(l, now);
    PlaceDotDot(DotState(l, now), InitFs(l, now), now);
    RootEntries(InitFs(l, now), now);
  }

  /** The root's `..` entry names inode 0, and inode_index 0 is also what marks an entry free:
      the first entry added to the root after init_fs takes entry 0 of block 1 and `..` is no
      longer found. */
  lemma NextAddReplacesParent(t: FsState, name: seq<byte>, kind: InodeType, index: uint32, now: int, later: int)
    requires Shaped(t) && t.dataBlocks >= 2
    requires t.inodes[0] == RootRecord(now).(size := 2 * EntryBytes, modified := now, blocks := NoBlocks[2 := 1])
    requires EntryName(t.disk[1], 0) == DotDotName && EntryIndex(t.disk[1], 0) == RootInode
    requires forall k :: 0 < k < EntriesPerBlock ==> EntryName(t.disk[1], k) == [] && EntryIndex(t.disk[1], k) == 0
    requires NoNul(name) && 0 < |name| < MaxNameSize && name != DotDotName
    requires !FindEntry(t, RootInode, name, kind).Ok?
    ensures AddEntry(t, RootInode, name, kind, index, later).1 == Success
    ensures FindEntry(AddEntry(t, RootInode, name, kind, index, later).0, RootInode, DotDotName, Directory) == Err(NotFound)
  {
    RootAddTakesEntryZero(t, name, kind, index, now, later);
    ParentGoneFromRoot(AddEntry(t, RootInode, name, kind, index, later).0, t.disk[1], name, index);
  }

  /** The add lands in entry 0 of block 1, the first free entry of the root's only block. */
  lemma RootAddTakesEntryZero(t: FsState, name: seq<byte>, kind: InodeType, index: uint32, now: int, later: int)
    requires Shaped(t) && t.dataBlocks >= 2
    requires t.inodes[0] == RootRecord(now).(size := 2 * EntryBytes, modified := now, blocks := NoBlocks[2 := 1])
    requires EntryIndex(t.disk[1], 0) == RootInode
    requires NoNul(name) && !FindEntry(t, RootInode, name, kind).Ok?
    ensures var (u, out) := AddEntry(t, RootInode, name, kind, index, later);
      && out == Success && u.dataBlocks == t.dataBlocks
      && u.disk[1] == PutEntry(t.disk[1], 0, name, index)
      && u.inodes[0].kind == Directory && u.inodes[0].nextInode == 0 && u.inodes[0].blocks == NoBlocks[2 := 1]
  {
    var b := t.disk[1];
    assert SlotBlock(t, 0, FirstAddSlot) == b;
    assert FirstFree(b, 0) == Some(0);
    PlaceInSlot(t, 0, name, index, later, FirstAddSlot);
    var u := AddInSlots(t, 0, name, index, later, FirstAddSlot).0;
    assert AddStep(t, 0, name, index, later) == Finished(u, Success);
    assert AddEntry(t, RootInode, name, kind, index, later).0 == u;
    assert PlacedAt(t, u, 0, FirstAddSlot, name, index, later);
  }

  /** A root whose only block holds no `..` entry besides position 0, rewritten with name,
      finds no `..`. */
  lemma ParentGoneFromRoot(u: FsState, b: Block, name: seq<byte>, index: uint32)
    requires Shaped(u) && u.dataBlocks >= 2
    requires u.inodes[0].kind == Directory && u.inodes[0].nextInode == 0 && u.inodes[0].blocks == NoBlocks[2 := 1]
    requires forall k :: 0 < k < EntriesPerBlock ==> EntryName(b, k) == [] && EntryIndex(b, k) == 0
    requires NoNul(name) && 0 < |name| < MaxNameSize && name != DotDotName
    requires u.disk[1] == PutEntry(b, 0, name, index)
    ensures FindEntry(u, RootInode, DotDotName, Directory) == Err(NotFound)
  {
    var c := u.disk[1];
    var slots := u.inodes[0].blocks;
    forall k | 0 <= k < EntriesPerBlock
      ensures EntryName(c, k) != DotDotName
    {
      PutEntryRead(b, 0, name, index, k);
      if k != 0 {
        assert EntryName(c, k) == CString(Record(b, k)[..NameFieldBytes]) == EntryName(b, k);
      }
    }
    assert FindInBlock(u, c, DotDotName, Directory, 0) == None;
    EmptySlotsFindNothing(u, slots[3..], DotDotName, Directory);
    assert slots[2..][1..] == slots[3..];
    assert FindInSlots(u, slots[2..], DotDotName, Directory) == Ok(None);
    assert FindInSlots(u, slots, DotDotName, Directory) == Ok(None) by {
      assert slots[1..][1..] == slots[2..];
    }
  }

  /** After init_fs, creating anything in the root loses the root's `..` entry. */
  lemma InitParentIsLost(l: Layout.Layout, now: int, name: seq<byte>, kind: InodeType, index: uint32, later: int)
    requires Fits(l) && l.dataBlocks >= 2
    requires NoNul(name) && 0 < |name| < MaxNameSize && name != DotDotName
    requires !FindEntry(InitFs(l, now), RootInode, name, kind).Ok?
    ensures AddEntry(InitFs(l, now), RootInode, name, kind, index, later).1 == Success
    ensures FindEntry(AddEntry(InitFs(l, now), RootInode, name, kind, index, later).0, RootInode, DotDotName, Directory) == Err(NotFound)
  {
    DotStateFacts(l, now);
    AddDotDot(l, now);
    PlaceDotDot(DotState(l, now), InitFs(l, now), now);
    NextAddReplacesParent(InitFs(l, now), name, kind, index, now, later);
  }
}
