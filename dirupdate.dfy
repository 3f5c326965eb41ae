/** What dirAddEntry and dirRemoveEntry change (fs_operations.c:56-231): insertion is first-fit
    over the free entries of slots 2..11, chaining a fresh directory inode when they are all
    full; removal clears the first used entry with the name and releases its target. */
module DirUpdate {
  import opened FsTypes
  import opened DirEntry
  import opened Store
  import opened Directory

  predicate BlockFull(b: Block) {
    forall k :: 0 <= k < EntriesPerBlock ==> EntryIndex(b, k) != 0
  }

  /** Slot i of inode cur names a readable block without a free entry. */
  predicate SlotFull(s: FsState, cur: nat, i: nat)
    requires Shaped(s) && cur < MaxInodes && i < BlocksPerInode
  {
    var bn := s.inodes[cur].blocks[i];
    bn != 0 && bn < s.dataBlocks && BlockFull(s.disk[bn])
  }

  /** t is s after placing (name, index) in slot i of inode cur: the slot's block (allocated
      first-fit and zeroed when the slot was 0) gets the entry at its first free position,
      the inode's size grows by one record, and nothing else changes. */
  predicate PlacedAt(s: FsState, t: FsState, cur: nat, i: nat, name: seq<byte>, index: uint32, now: int)
    requires Shaped(s) && Shaped(t) && cur < MaxInodes && i < BlocksPerInode
  {
    var slot := s.inodes[cur].blocks[i];
    var bn := t.inodes[cur].blocks[i];
    && t.inodes == s.inodes[cur := s.inodes[cur].(blocks := s.inodes[cur].blocks[i := bn],
                                                  size := Wrap32(s.inodes[cur].size + EntryBytes),
                                                  modified := now)]
    && t.inodeBitmap == s.inodeBitmap && t.dataBlocks == s.dataBlocks
    && bn < s.dataBlocks
    && (slot != 0 ==> bn == slot && t.blockBitmap == s.blockBitmap)
    && (slot == 0 ==> AllocateBlock(s).1 == bn && t.blockBitmap == AllocateBlock(s).0.blockBitmap)
    && (var before := if slot == 0 then ZeroBlock else s.disk[bn];
        && FirstFree(before, 0).Some?
        && t.disk == s.disk[bn := PutEntry(before, FirstFree(before, 0).value, name, index)])
  }

  /** The block slot i would receive the entry in: the existing block, or a zeroed one. */
  function SlotBlock(s: FsState, cur: nat, i: nat): Block
    requires Shaped(s) && cur < MaxInodes && i < BlocksPerInode
  {
    var slot := s.inodes[cur].blocks[i];
    if slot == 0 || slot >= s.dataBlocks then ZeroBlock else s.disk[slot]
  }

  /** One round of the slot loop that finds a free entry places it there. */
  lemma PlaceInSlot(s: FsState, cur: nat, name: seq<byte>, index: uint32, now: int, i: nat)
    requires Shaped(s) && cur < MaxInodes && i < BlocksPerInode
    requires EnsureSlotBlock(s, cur, i).1.Ok? && EnsureSlotBlock(s, cur, i).1.value < s.dataBlocks
    requires FirstFree(SlotBlock(s, cur, i), 0).Some?
    ensures AddInSlots(s, cur, name, index, now, i).1 == Some(Success)
    ensures PlacedAt(s, AddInSlots(s, cur, name, index, now, i).0, cur, i, name, index, now)
  {
    var (s1, blk) := EnsureSlotBlock(s, cur, i);
    var bn := blk.value;
    var b := SlotBlock(s, cur, i);
    assert ReadBlock(s1, bn) == Ok(b);
    var j := FirstFree(b, 0).value;
    var t := StoreEntry(s1, cur, bn, b, j, name, index, now);
    assert AddInSlots(s, cur, name, index, now, i) == (t, Some(Success));
    assert s1.inodes[cur] == s.inodes[cur].(blocks := s.inodes[cur].blocks[i := bn]);
  }

  /** A round of the slot loop that finds no free entry changes nothing. */
  lemma SkipFullSlot(s: FsState, cur: nat, name: seq<byte>, index: uint32, now: int, i: nat)
    requires Shaped(s) && cur < MaxInodes && i < BlocksPerInode
    requires EnsureSlotBlock(s, cur, i).1.Ok? && EnsureSlotBlock(s, cur, i).1.value < s.dataBlocks
    requires FirstFree(SlotBlock(s, cur, i), 0).None?
    ensures SlotFull(s, cur, i)
    ensures AddInSlots(s, cur, name, index, now, i) == AddInSlots(s, cur, name, index, now, i + 1)
  {
    if s.inodes[cur].blocks[i] == 0 {
      ZeroBlockEntries(0);
      assert false;
    }
    assert EnsureSlotBlock(s, cur, i) == (s, Ok(s.inodes[cur].blocks[i]));
    assert ReadBlock(s, s.inodes[cur].blocks[i]) == Ok(SlotBlock(s, cur, i));
    FirstFreeSkips(SlotBlock(s, cur, i), 0);
  }

  /** A round of the slot loop that cannot get a readable block stops with a failure. */
  lemma FailInSlot(s: FsState, cur: nat, name: seq<byte>, index: uint32, now: int, i: nat)
    requires Shaped(s) && cur < MaxInodes && i < BlocksPerInode
    requires EnsureSlotBlock(s, cur, i).1.Err? || EnsureSlotBlock(s, cur, i).1.value >= s.dataBlocks
    ensures AddInSlots(s, cur, name, index, now, i).1.Some?
    ensures AddInSlots(s, cur, name, index, now, i).1.value.Failure?
  {
  }

  /** The first slot from i on that is not full. */
  function FirstOpenSlot(s: FsState, cur: nat, i: nat): (r: Option<nat>)
    requires Shaped(s) && cur < MaxInodes && i <= BlocksPerInode
    ensures r.Some? ==> i <= r.value < BlocksPerInode && !SlotFull(s, cur, r.value)
    ensures r.Some? ==> forall m :: i <= m < r.value ==> SlotFull(s, cur, m)
    ensures r.None? ==> forall m :: i <= m < BlocksPerInode ==> SlotFull(s, cur, m)
    decreases BlocksPerInode - i
  {
    if i == BlocksPerInode then None
    else if !SlotFull(s, cur, i) then Some(i)
    else FirstOpenSlot(s, cur, i + 1)
  }

  /** The slot loop of dirAddEntry is first-fit: it gives up (changing nothing) only when every
      slot from i on is full, and otherwise places the entry in the first slot that is not. */
  lemma {:induction false} AddInSlotsPlaces(s: FsState, cur: nat, name: seq<byte>, index: uint32, now: int, i: nat)
    requires Shaped(s) && cur < MaxInodes && i <= BlocksPerInode
    ensures AddInSlots(s, cur, name, index, now, i).1.None? ==> FirstOpenSlot(s, cur, i).None?
    ensures AddInSlots(s, cur, name, index, now, i).1 == Some(Success) ==>
      && FirstOpenSlot(s, cur, i).Some?
      && PlacedAt(s, AddInSlots(s, cur, name, index, now, i).0, cur, FirstOpenSlot(s, cur, i).value, name, index, now)
    decreases BlocksPerInode - i
  {
    if i < BlocksPerInode {
      var blk := EnsureSlotBlock(s, cur, i).1;
      if blk.Ok? && blk.value < s.dataBlocks {
        if FirstFree(SlotBlock(s, cur, i), 0).Some? {
          PlaceInSlot(s, cur, name, index, now, i);
          assert !SlotFull(s, cur, i);
        } else {
          SkipFullSlot(s, cur, name, index, now, i);
          AddInSlotsPlaces(s, cur, name, index, now, i + 1);
        }
      } else {
        FailInSlot(s, cur, name, index, now, i);
      }
    }
  }

  /** A chained inode as dirAddEntry makes it: a zeroed directory record whose blocks[0] is
      block nb. */
  function ChainInode(nb: uint32, next: uint32): Inode {
    ZeroInode.(kind := Directory, blocks := NoBlocks[0 := nb], nextInode := next)
  }

  /** Extending a full chain links from cur the lowest free inode, now used and made a
      directory, whose blocks[0] is the lowest free block, now used and zeroed on disk. */
  lemma ExtendChainEffect(s: FsState, cur: nat)
    requires Shaped(s) && cur < MaxInodes && ExtendChain(s, cur).1 == Success
    ensures var t := ExtendChain(s, cur).0;
      var n := t.inodes[cur].nextInode;
      && n as int == AllocateInode(s).1 && n < MaxInodes && !InodeUsed(s, n) && InodeUsed(t, n)
      && (forall i :: 0 <= i < n ==> InodeUsed(s, i))
      && var nb := t.inodes[n].blocks[0];
         && nb as int == Bitmap.FirstClear(s.blockBitmap, s.dataBlocks, 0) && nb < s.dataBlocks
         && !BlockUsed(s, nb) && BlockUsed(t, nb)
         && t.disk == s.disk[nb := ZeroBlock]
         && t.inodes[n] == ChainInode(nb, t.inodes[n].nextInode)
         && (forall i :: 0 <= i < MaxInodes && i != n && i != cur ==> t.inodes[i] == s.inodes[i])
    ensures var t := ExtendChain(s, cur).0;
      var n := t.inodes[cur].nextInode;
      n as nat != cur ==> t.inodes[n].nextInode == 0 && t.inodes[cur] == s.inodes[cur].(nextInode := n)
  {
    var (s1, n) := AllocateInode(s);
    var s2 := SetInode(s1, n, ZeroInode.(kind := Directory));
    assert s2.blockBitmap == s.blockBitmap;
    var (s3, nb) := AllocateBlock(s2);
    assert nb == Bitmap.FirstClear(s.blockBitmap, s.dataBlocks, 0);
  }

  /** Entry j of slot k of inode c holds (name, index). */
  predicate Stored(t: FsState, c: nat, k: nat, j: nat, name: seq<byte>, index: uint32)
    requires Shaped(t)
  {
    && c < MaxInodes && FirstAddSlot <= k < BlocksPerInode && j < EntriesPerBlock
    && var bn := t.inodes[c].blocks[k];
       bn < t.dataBlocks && EntryName(t.disk[bn], j) == name && EntryIndex(t.disk[bn], j) == index
  }

  /** A placement stores the (truncated) name and the index at the first free entry of the
      slot's block. */
  lemma PlacedStores(s: FsState, t: FsState, cur: nat, i: nat, name: seq<byte>, index: uint32, now: int) returns (j: nat)
    requires Shaped(s) && Shaped(t) && cur < MaxInodes && FirstAddSlot <= i < BlocksPerInode && NoNul(name)
    requires PlacedAt(s, t, cur, i, name, index, now)
    ensures Stored(t, cur, i, j, Truncate(name), index)
  {
    var slot := s.inodes[cur].blocks[i];
    var bn := t.inodes[cur].blocks[i];
    var before := if slot == 0 then ZeroBlock else s.disk[bn];
    j := FirstFree(before, 0).value;
    PutEntryRead(before, j, name, index, j);
  }

  /** Releasing a target frees its inode and every data block it lists, and sets no bit;
      records other than the target's are kept or zeroed (those of its chain). */
  lemma ReleaseTargetEffect(s: FsState, target: nat)
    requires Shaped(s) && target < MaxInodes && ReleaseTarget(s, target).Ok?
    ensures var t := ReleaseTarget(s, target).value;
      && t.disk == s.disk
      && !InodeUsed(t, target) && t.inodes[target] == ZeroInode
      && (forall x :: 0 <= x < |s.blockBitmap| * 8 && FreedBy(s, s.inodes[target].blocks, x) ==> !BlockUsed(t, x))
      && (forall x :: 0 <= x < |s.blockBitmap| * 8 && BlockUsed(t, x) ==> BlockUsed(s, x))
      && (forall i :: 0 <= i < |s.inodeBitmap| * 8 && InodeUsed(t, i) ==> InodeUsed(s, i))
      && (forall i :: 0 <= i < MaxInodes ==> t.inodes[i] == s.inodes[i] || t.inodes[i] == ZeroInode)
  {
    var t := ReleaseTarget(s, target).value;
    var s1 := FreeSlotBlocks(s, s.inodes[target].blocks);
    var s2 := SetInode(s1, target, s1.inodes[target].(blocks := NoBlocks));
    FreeInodeOnlyReleases(s2, target, ChainFuel);
    FreeInodeReleasesInode(s2, target, ChainFuel);
    forall x | 0 <= x < |s.blockBitmap| * 8
      ensures BlockUsed(s2, x) == (BlockUsed(s, x) && !FreedBy(s, s.inodes[target].blocks, x))
    {
      FreeSlotBlocksEffect(s, s.inodes[target].blocks, x);
    }
  }

  /** A successful RemoveAt wrote the cleared block, released the target from the state with
      that block written, and then set the head's size and time. */
  lemma RemoveAtSteps(s: FsState, head: nat, bn: uint32, b: Block, j: nat, now: int) returns (s1: FsState, s2: FsState)
    requires Shaped(s) && head < MaxInodes && j < EntriesPerBlock
    requires RemoveAt(s, head, bn, b, j, now).1 == Success
    ensures bn < s.dataBlocks && EntryIndex(b, j) < MaxInodes
    ensures s1 == s.(disk := s.disk[bn := ClearEntry(b, j)]) && Shaped(s1)
    ensures ReleaseTarget(s1, EntryIndex(b, j)) == Ok(s2)
    ensures RemoveAt(s, head, bn, b, j, now).0
      == SetInode(s2, head, s2.inodes[head].(size := Wrap32(s2.inodes[head].size - EntryBytes), modified := now))
  {
    s1 := WriteBlock(s, bn, ClearEntry(b, j)).value;
    s2 := ReleaseTarget(s1, EntryIndex(b, j)).value;
  }

  /** Removing entry j of block bn clears that entry and nothing else on disk, releases its
      target, and sets no bit. */
  lemma RemoveAtEffect(s: FsState, head: nat, bn: uint32, b: Block, j: nat, now: int)
    requires Shaped(s) && head < MaxInodes && j < EntriesPerBlock
    requires RemoveAt(s, head, bn, b, j, now).1 == Success
    ensures var t := RemoveAt(s, head, bn, b, j, now).0;
      var target := EntryIndex(b, j);
      && bn < s.dataBlocks && target < MaxInodes
      && t.disk == s.disk[bn := ClearEntry(b, j)]
      && !InodeUsed(t, target)
      && (forall x :: 0 <= x < |s.blockBitmap| * 8 && FreedBy(s, s.inodes[target].blocks, x) ==> !BlockUsed(t, x))
      && (forall x :: 0 <= x < |s.blockBitmap| * 8 && BlockUsed(t, x) ==> BlockUsed(s, x))
      && (forall i :: 0 <= i < |s.inodeBitmap| * 8 && InodeUsed(t, i) ==> InodeUsed(s, i))
  {
    var s1, s2 := RemoveAtSteps(s, head, bn, b, j, now);
    ReleaseTargetEffect(s1, EntryIndex(b, j));
    var t := RemoveAt(s, head, bn, b, j, now).0;
    assert t.blockBitmap == s2.blockBitmap && t.inodeBitmap == s2.inodeBitmap && t.disk == s2.disk;
    assert s1.blockBitmap == s.blockBitmap && s1.inodeBitmap == s.inodeBitmap && s1.inodes == s.inodes;
    forall x | 0 <= x < |s.blockBitmap| * 8
      ensures FreedBy(s, s.inodes[EntryIndex(b, j)].blocks, x) ==> !BlockUsed(t, x)
      ensures BlockUsed(t, x) ==> BlockUsed(s, x)
    {
      assert BlockUsed(t, x) == BlockUsed(s2, x) && BlockUsed(s1, x) == BlockUsed(s, x);
    }
    forall i | 0 <= i < |s.inodeBitmap| * 8
      ensures InodeUsed(t, i) ==> InodeUsed(s, i)
    {
      assert InodeUsed(t, i) == InodeUsed(s2, i) && InodeUsed(s1, i) == InodeUsed(s, i);
    }
  }

  /** Removing an entry takes one record off the size of the head inode (which is itself
      zeroed first when the removal released it); other records are kept or zeroed. */
  lemma RemoveAtRecords(s: FsState, head: nat, bn: uint32, b: Block, j: nat, now: int)
    requires Shaped(s) && head < MaxInodes && j < EntriesPerBlock
    requires RemoveAt(s, head, bn, b, j, now).1 == Success
    ensures var t := RemoveAt(s, head, bn, b, j, now).0;
      && (|| t.inodes[head] == s.inodes[head].(size := Wrap32(s.inodes[head].size - EntryBytes), modified := now)
          || t.inodes[head] == ZeroInode.(size := Wrap32(0 - EntryBytes), modified := now))
      && (forall i :: 0 <= i < MaxInodes && i != head ==> t.inodes[i] == s.inodes[i] || t.inodes[i] == ZeroInode)
  {
    var s1, s2 := RemoveAtSteps(s, head, bn, b, j, now);
    ReleaseTargetEffect(s1, EntryIndex(b, j));
    assert s1.inodes == s.inodes;
  }

  // ---------------------------------------------------------------- what dirAddEntry leaves alone

  /** Inode n has the same record in t as in s, and is still used if it was. */
  predicate Keeps(s: FsState, t: FsState, n: nat)
    requires Shaped(s) && Shaped(t) && n < MaxInodes
  {
    t.inodes[n] == s.inodes[n] && |t.inodeBitmap| == |s.inodeBitmap| && (InodeUsed(s, n) ==> InodeUsed(t, n))
  }

  lemma EnsureSlotBlockKeeps(s: FsState, cur: nat, i: nat, n: nat)
    requires Shaped(s) && cur < MaxInodes && i < BlocksPerInode && n < MaxInodes && n != cur
    ensures Keeps(s, EnsureSlotBlock(s, cur, i).0, n)
  {
  }

  /** The slot loop changes only the record of cur among the inodes, and no inode bit. */
  lemma {:induction false} AddInSlotsKeeps(s: FsState, cur: nat, name: seq<byte>, index: uint32, now: int, i: nat, n: nat)
    requires Shaped(s) && cur < MaxInodes && i <= BlocksPerInode && n < MaxInodes && n != cur
    ensures Keeps(s, AddInSlots(s, cur, name, index, now, i).0, n)
    decreases BlocksPerInode - i
  {
    if i < BlocksPerInode {
      var (s1, blk) := EnsureSlotBlock(s, cur, i);
      EnsureSlotBlockKeeps(s, cur, i, n);
      if blk.Ok? && ReadBlock(s1, blk.value).Ok? && FirstFree(ReadBlock(s1, blk.value).value, 0).None? {
        AddInSlotsKeeps(s1, cur, name, index, now, i + 1, n);
      }
    }
  }

  /** A used inode n other than cur is not the one ExtendChain allocates. */
  lemma ExtendChainKeeps(s: FsState, cur: nat, n: nat)
    requires Shaped(s) && cur < MaxInodes && n < MaxInodes && n != cur && InodeUsed(s, n)
    ensures Keeps(s, ExtendChain(s, cur).0, n)
  {
    var (s1, m) := AllocateInode(s);
    assert m != -1 ==> m != n && InodeUsed(s1, n);
  }

  /** A round of the chain loop touches only directory inodes and inodes it allocates. */
  lemma AddStepKeeps(s: FsState, cur: nat, name: seq<byte>, index: uint32, now: int, n: nat)
    requires Shaped(s) && cur < MaxInodes && n < MaxInodes && InodeUsed(s, n) && s.inodes[n].kind != Directory
    ensures Keeps(s, AddStep(s, cur, name, index, now).state, n)
  {
    if s.inodes[cur].kind == Directory {
      var (s1, placed) := AddInSlots(s, cur, name, index, now, FirstAddSlot);
      AddInSlotsKeeps(s, cur, name, index, now, FirstAddSlot, n);
      if placed.None? && s1.inodes[cur].nextInode == 0 {
        ExtendChainKeeps(s1, cur, n);
      }
    }
  }

  lemma {:induction false} AddInChainKeeps(s: FsState, cur: nat, name: seq<byte>, index: uint32, now: int, fuel: nat, n: nat)
    requires Shaped(s) && cur < MaxInodes && n < MaxInodes && InodeUsed(s, n) && s.inodes[n].kind != Directory
    ensures Keeps(s, AddInChain(s, cur, name, index, now, fuel).0, n)
    decreases fuel
  {
    var step := AddStep(s, cur, name, index, now);
    AddStepKeeps(s, cur, name, index, now, n);
    if step.Finished? {
      AddInChainFinished(s, cur, name, index, now, fuel);
    } else if fuel == 0 {
      AddInChainGivesUp(s, cur, name, index, now);
    } else {
      var t, next, rest := AddInChainNext(s, cur, name, index, now, fuel);
      AddInChainKeeps(t, next, name, index, now, rest, n);
    }
  }

  /** dirAddEntry leaves the record of a used inode that is not a directory as it was, such as
      the inode whose entry is being added. */
  lemma AddEntryKeeps(s: FsState, dir: int, name: seq<byte>, t: InodeType, index: uint32, now: int, n: nat)
    requires Shaped(s) && n < MaxInodes && InodeUsed(s, n) && s.inodes[n].kind != Directory
    ensures AddEntry(s, dir, name, t, index, now).0.inodes[n] == s.inodes[n]
  {
    if 0 <= dir < MaxInodes && !FindEntry(s, dir, name, t).Ok? {
      AddInChainKeeps(s, dir, name, index, now, ChainFuel, n);
    }
  }
}

