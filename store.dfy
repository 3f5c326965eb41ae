/** The engine state and the allocator and block-transfer primitives of fs.c:314-395, as
    functions from a state value to the next one.  The class in filesystem.dfy performs the same
    steps in place and is proved to end in the state these functions compute. */
module Store {
  import opened FsTypes
  import Bitmap

  /** The globals of fs.c: the two bitmaps, the inode table, the data region of the disk image
      seen as computed_data_blocks blocks, and computed_data_blocks itself. */
  datatype FsState = FsState(
    blockBitmap: seq<bv8>,
    inodeBitmap: seq<bv8>,
    inodes: seq<Inode>,
    disk: seq<Block>,
    dataBlocks: nat)

  /** The sizes compute_layout guarantees: a record per inode, a bit per inode and per data
      block, and a block count that stays below 2^31 so that the int conversions of the
      source keep it positive. */
  predicate Shaped(s: FsState) {
    && |s.inodes| == MaxInodes
    && |s.inodeBitmap| * 8 >= MaxInodes
    && s.dataBlocks <= |s.blockBitmap| * 8
    && |s.disk| == s.dataBlocks
    && s.dataBlocks < 0x8000_0000
  }

  predicate BlockUsed(s: FsState, b: nat)
    requires b < |s.blockBitmap| * 8
  {
    Bitmap.Test(s.blockBitmap, b)
  }

  predicate InodeUsed(s: FsState, i: nat)
    requires i < |s.inodeBitmap| * 8
  {
    Bitmap.Test(s.inodeBitmap, i)
  }

  /** Block 0 is in use, as it is from init_fs on (the root's orphaned `.` block), so the
      allocator never hands out block 0, which a slot could not name. */
  predicate ZeroReserved(s: FsState) {
    Shaped(s) && 0 < s.dataBlocks && BlockUsed(s, 0)
  }

  /** Two states agree on everything but the block bitmap. */
  predicate SameButBlockBitmap(s: FsState, t: FsState) {
    t.inodeBitmap == s.inodeBitmap && t.inodes == s.inodes && t.disk == s.disk
    && t.dataBlocks == s.dataBlocks && |t.blockBitmap| == |s.blockBitmap|
  }

  /** ino with its block slot k pointing at block nb, nothing else changed. */
  function WithSlot(ino: Inode, k: nat, nb: uint32): (r: Inode)
    requires k < BlocksPerInode
    ensures r.blocks == ino.blocks[k := nb] && r == ino.(blocks := r.blocks)
  {
    ino.(blocks := ino.blocks[k := nb])
  }

  function SetInode(s: FsState, i: nat, ino: Inode): (t: FsState)
    requires Shaped(s) && i < MaxInodes
    ensures Shaped(t) && t.inodes == s.inodes[i := ino]
  {
    s.(inodes := s.inodes[i := ino])
  }

  /** allocateBlock: the lowest data block whose bit is clear, now marked used; -1 and no change
      when every data block is used. */
  function AllocateBlock(s: FsState): (r: (FsState, int))
    requires Shaped(s)
    ensures Shaped(r.0) && SameButBlockBitmap(s, r.0)
    ensures r.1 == -1 ==> r.0 == s
    ensures r.1 != -1 ==> 0 <= r.1 < s.dataBlocks && !BlockUsed(s, r.1)
  {
    var b := Bitmap.FirstClear(s.blockBitmap, s.dataBlocks, 0);
    if b == -1 then (s, -1)
    else (s.(blockBitmap := Bitmap.Set(s.blockBitmap, b)), b)
  }

  /** allocateBlock fails only when every data block is used, and otherwise takes the lowest
      free block, marking that block and no other. */
  lemma AllocateBlockFirstFit(s: FsState)
    requires Shaped(s)
    ensures var (t, b) := AllocateBlock(s);
      && (b == -1 ==> forall k :: 0 <= k < s.dataBlocks ==> BlockUsed(s, k))
      && (b != -1 ==> forall k :: 0 <= k < b ==> BlockUsed(s, k))
      && (b != -1 ==> forall k :: 0 <= k < |s.blockBitmap| * 8 ==> BlockUsed(t, k) == (k == b || BlockUsed(s, k)))
  {
  }

  /** allocateBlock takes the first clear bit: when every block below i is used and block i
      is free, it sets exactly byte i / 8's bit for i and returns i. */
  lemma AllocateBlockAt(s: FsState, i: nat)
    requires Shaped(s) && i < s.dataBlocks && !BlockUsed(s, i)
    requires forall k :: 0 <= k < i ==> BlockUsed(s, k)
    ensures AllocateBlock(s) == (s.(blockBitmap := s.blockBitmap[i / 8 := s.blockBitmap[i / 8] | Bitmap.Mask(i)]), i)
  {
    assert !Bitmap.Test(s.blockBitmap, i);
    forall k | 0 <= k < i
      ensures Bitmap.Test(s.blockBitmap, k)
    {
      assert BlockUsed(s, k);
    }
    var b := Bitmap.FirstClear(s.blockBitmap, s.dataBlocks, 0);
    assert b == i;
    assert Bitmap.Set(s.blockBitmap, i) == s.blockBitmap[i / 8 := s.blockBitmap[i / 8] | Bitmap.Mask(i)];
  }

  /** With every data block used, allocateBlock fails and changes nothing. */
  lemma AllocateBlockFull(s: FsState)
    requires Shaped(s) && forall k :: 0 <= k < s.dataBlocks ==> BlockUsed(s, k)
    ensures AllocateBlock(s) == (s, -1)
  {
  }

  /** freeBlock: clears the bit of a data block; indices outside the data region and blocks
      already free are left alone. */
  function FreeBlock(s: FsState, b: int): (t: FsState)
    requires Shaped(s)
    ensures Shaped(t) && SameButBlockBitmap(s, t)
    ensures !(0 <= b < s.dataBlocks) ==> t == s
    ensures 0 <= b < s.dataBlocks ==> forall k :: 0 <= k < |s.blockBitmap| * 8 ==> BlockUsed(t, k) == (k != b && BlockUsed(s, k))
  {
    if 0 <= b < s.dataBlocks && Bitmap.Test(s.blockBitmap, b) then s.(blockBitmap := Bitmap.Clear(s.blockBitmap, b))
    else s
  }

  /** freeBlock on a used data block clears exactly that block's bit in byte b / 8. */
  lemma FreeBlockAt(s: FsState, b: nat)
    requires Shaped(s) && b < s.dataBlocks && BlockUsed(s, b)
    ensures FreeBlock(s, b) == s.(blockBitmap := s.blockBitmap[b / 8 := s.blockBitmap[b / 8] & !Bitmap.Mask(b)])
  {
  }

  /** Freeing a block twice is freeing it once. */
  lemma FreeBlockIdempotent(s: FsState, b: int)
    requires Shaped(s)
    ensures FreeBlock(FreeBlock(s, b), b) == FreeBlock(s, b)
  {
  }

  /** allocateInode: the lowest inode whose bit is clear, now marked used, with its record
      zeroed (so next_inode is 0); -1 and no change when all MAX_INODES are used. */
  function AllocateInode(s: FsState): (r: (FsState, int))
    requires Shaped(s)
    ensures Shaped(r.0)
    ensures r.0.blockBitmap == s.blockBitmap && r.0.disk == s.disk && r.0.dataBlocks == s.dataBlocks
    ensures |r.0.inodeBitmap| == |s.inodeBitmap|
    ensures r.1 == -1 ==> r.0 == s
    ensures r.1 != -1 ==> 0 <= r.1 < MaxInodes && !InodeUsed(s, r.1)
    ensures r.1 != -1 ==> r.0.inodes == s.inodes[r.1 := ZeroInode]
  {
    var i := Bitmap.FirstClear(s.inodeBitmap, MaxInodes, 0);
    if i == -1 then (s, -1)
    else (s.(inodeBitmap := Bitmap.Set(s.inodeBitmap, i), inodes := s.inodes[i := ZeroInode]), i)
  }

  /** allocateInode fails only when all MAX_INODES inodes are used, and otherwise takes the
      lowest free inode, marking that inode and no other. */
  lemma AllocateInodeFirstFit(s: FsState)
    requires Shaped(s)
    ensures var (t, n) := AllocateInode(s);
      && (n == -1 ==> forall k :: 0 <= k < MaxInodes ==> InodeUsed(s, k))
      && (n != -1 ==> forall k :: 0 <= k < n ==> InodeUsed(s, k))
      && (n != -1 ==> forall k :: 0 <= k < |s.inodeBitmap| * 8 ==> InodeUsed(t, k) == (k == n || InodeUsed(s, k)))
  {
  }

  /** allocateInode takes the first clear bit: when every inode below i is used and inode i
      is free, it sets i's bit, zeroes record i and returns i. */
  lemma AllocateInodeAt(s: FsState, i: nat)
    requires Shaped(s) && i < MaxInodes && !InodeUsed(s, i)
    requires forall k :: 0 <= k < i ==> InodeUsed(s, k)
    ensures AllocateInode(s) ==
      (s.(inodeBitmap := s.inodeBitmap[i / 8 := s.inodeBitmap[i / 8] | Bitmap.Mask(i)], inodes := s.inodes[i := ZeroInode]), i)
  {
    assert !Bitmap.Test(s.inodeBitmap, i);
    forall k | 0 <= k < i
      ensures Bitmap.Test(s.inodeBitmap, k)
    {
      assert InodeUsed(s, k);
    }
    var b := Bitmap.FirstClear(s.inodeBitmap, MaxInodes, 0);
    assert b == i;
    assert Bitmap.Set(s.inodeBitmap, i) == s.inodeBitmap[i / 8 := s.inodeBitmap[i / 8] | Bitmap.Mask(i)];
  }

  /** With all MAX_INODES inodes used, allocateInode fails and changes nothing. */
  lemma AllocateInodeFull(s: FsState)
    requires Shaped(s) && forall k :: 0 <= k < MaxInodes ==> InodeUsed(s, k)
    ensures AllocateInode(s) == (s, -1)
  {
  }

  /** A block number listed in slots that denotes a data block. */
  predicate FreedBy(s: FsState, slots: seq<uint32>, b: nat) {
    0 < b < s.dataBlocks && b in slots
  }

  /** The loop of freeInode over the block slots: `int block = blocks[i]; if (block > 0)
      freeBlock(block)`, taking the remaining slots in order. */
  function FreeSlotBlocks(s: FsState, slots: seq<uint32>): (t: FsState)
    requires Shaped(s)
    ensures Shaped(t) && SameButBlockBitmap(s, t)
    decreases |slots|
  {
    if |slots| == 0 then s
    else
      var block := AsInt32(slots[0]);
      var s1 := if block > 0 then FreeBlock(s, block) else s;
      FreeSlotBlocks(s1, slots[1..])
  }

  /** The slot loop releases exactly the data blocks listed. */
  lemma {:induction false} FreeSlotBlocksEffect(s: FsState, slots: seq<uint32>, b: nat)
    requires Shaped(s) && b < |s.blockBitmap| * 8
    ensures BlockUsed(FreeSlotBlocks(s, slots), b) == (BlockUsed(s, b) && !FreedBy(s, slots, b))
    decreases |slots|
  {
    if |slots| > 0 {
      var block := AsInt32(slots[0]);
      var s1 := if block > 0 then FreeBlock(s, block) else s;
      FreeSlotBlocksEffect(s1, slots[1..], b);
      assert b in slots <==> b == slots[0] || b in slots[1..] by {
        assert slots == [slots[0]] + slots[1..];
      }
    }
  }

  /** freeInode: frees the blocks of inode i and the chain hanging from its next_inode
      (FreedChain), then clears its bit and zeroes its record; out-of-range indices are
      ignored.  The lemmas below state what a completed call does. */
  function FreeInode(s: FsState, i: int, fuel: nat): (r: Result<FsState>)
    requires Shaped(s)
    ensures r.Ok? ==> Shaped(r.value)
    ensures r.Ok? ==> r.value.disk == s.disk && r.value.dataBlocks == s.dataBlocks
    ensures r.Ok? ==> |r.value.blockBitmap| == |s.blockBitmap| && |r.value.inodeBitmap| == |s.inodeBitmap|
    ensures !(0 <= i < MaxInodes) ==> r == Ok(s)
    ensures r.Err? ==> r.error == Diverges
    decreases fuel, 1
  {
    if !(0 <= i < MaxInodes) then Ok(s)
    else match FreedChain(s, i, fuel)
      case Err(e) => Err(e)
      case Ok(s2) => Ok(ReleaseRecord(s2, i))
  }

  /** FreeInode only releases: no bit is set and every record is either kept or zeroed. */
  predicate OnlyReleases(s: FsState, t: FsState)
    requires Shaped(s) && Shaped(t) && |t.blockBitmap| == |s.blockBitmap| && |t.inodeBitmap| == |s.inodeBitmap|
  {
    && (forall b :: 0 <= b < |s.blockBitmap| * 8 && BlockUsed(t, b) ==> BlockUsed(s, b))
    && (forall j :: 0 <= j < |s.inodeBitmap| * 8 && InodeUsed(t, j) ==> InodeUsed(s, j))
    && (forall j :: 0 <= j < MaxInodes ==> t.inodes[j] == s.inodes[j] || t.inodes[j] == ZeroInode)
  }

  lemma OnlyReleasesTrans(a: FsState, b: FsState, c: FsState)
    requires Shaped(a) && Shaped(b) && Shaped(c)
    requires |b.blockBitmap| == |a.blockBitmap| && |b.inodeBitmap| == |a.inodeBitmap|
    requires |c.blockBitmap| == |a.blockBitmap| && |c.inodeBitmap| == |a.inodeBitmap|
    requires OnlyReleases(a, b) && OnlyReleases(b, c)
    ensures OnlyReleases(a, c)
  {
  }

  /** The last step of freeInode: clear the inode's bit and zero its record. */
  function ReleaseRecord(s: FsState, i: nat): (t: FsState)
    requires Shaped(s) && i < MaxInodes
    ensures Shaped(t) && t.blockBitmap == s.blockBitmap && t.disk == s.disk && t.dataBlocks == s.dataBlocks
    ensures |t.inodeBitmap| == |s.inodeBitmap| && OnlyReleases(s, t)
    ensures t.inodes[i] == ZeroInode && !InodeUsed(t, i)
  {
    s.(inodeBitmap := Bitmap.Clear(s.inodeBitmap, i), inodes := s.inodes[i := ZeroInode])
  }

  /** The release clears exactly inode i's bit in byte i / 8. */
  lemma ReleaseRecordAt(s: FsState, i: nat)
    requires Shaped(s) && i < MaxInodes
    ensures ReleaseRecord(s, i) ==
      s.(inodeBitmap := s.inodeBitmap[i / 8 := s.inodeBitmap[i / 8] & !Bitmap.Mask(i)], inodes := s.inodes[i := ZeroInode])
  {
  }

  /** The first part of freeInode: the blocks of inode i are freed, and then the chain hanging
      from its next_inode.  The source recurses for ever on a chain that returns to an inode
      being freed; the model gives up after fuel links with Diverges. */
  function FreedChain(s: FsState, i: nat, fuel: nat): (r: Result<FsState>)
    requires Shaped(s) && i < MaxInodes
    ensures r.Ok? ==> Shaped(r.value)
    ensures r.Ok? ==> r.value.disk == s.disk && r.value.dataBlocks == s.dataBlocks
    ensures r.Ok? ==> |r.value.blockBitmap| == |s.blockBitmap| && |r.value.inodeBitmap| == |s.inodeBitmap|
    ensures r.Err? ==> r.error == Diverges
    decreases fuel, 0
  {
    var s1 := FreeSlotBlocks(s, s.inodes[i].blocks);
    var next := s1.inodes[i].nextInode;
    if next == 0 then Ok(s1)
    else if fuel == 0 then Err(Diverges)
    else FreeInode(s1, AsInt32(next), fuel - 1)
  }

  lemma FreeInodeUnfold(s: FsState, i: nat, fuel: nat)
    requires Shaped(s) && i < MaxInodes
    ensures FreeInode(s, i, fuel).Ok? <==> FreedChain(s, i, fuel).Ok?
    ensures FreeInode(s, i, fuel).Ok? ==>
      Shaped(FreedChain(s, i, fuel).value) && FreeInode(s, i, fuel).value == ReleaseRecord(FreedChain(s, i, fuel).value, i)
  {
  }

  /** The blocks of inode i are freed into s1, and the chain goes on, if at all, with
      FreeInode on s1 from the next inode with less fuel. */
  lemma FreedChainNext(s: FsState, i: nat, fuel: nat) returns (s1: FsState, next: int, f: nat)
    requires Shaped(s) && i < MaxInodes && FreedChain(s, i, fuel).Ok?
    ensures Shaped(s1) && s1 == FreeSlotBlocks(s, s.inodes[i].blocks)
    ensures s1.inodes[i].nextInode == 0 ==> FreedChain(s, i, fuel) == Ok(s1)
    ensures s1.inodes[i].nextInode != 0 ==>
      && f < fuel && next == AsInt32(s1.inodes[i].nextInode) && FreedChain(s, i, fuel) == FreeInode(s1, next, f)
  {
    s1 := FreeSlotBlocks(s, s.inodes[i].blocks);
    next := AsInt32(s1.inodes[i].nextInode);
    f := if fuel == 0 then 0 else fuel - 1;
  }

  /** freeInode of an inode whose next_inode is 0 stops after that inode, whatever the fuel. */
  lemma FreeInodeOfLast(s: FsState, i: nat, fuel: nat)
    requires Shaped(s) && i < MaxInodes && s.inodes[i].nextInode == 0
    ensures FreeInode(s, i, fuel).Ok?
  {
    assert FreeSlotBlocks(s, s.inodes[i].blocks).inodes == s.inodes;
  }

  /** freeInode never allocates: no bit is set and every record is kept or zeroed. */
  lemma {:induction false} FreeInodeOnlyReleases(s: FsState, i: int, fuel: nat)
    requires Shaped(s) && FreeInode(s, i, fuel).Ok?
    ensures OnlyReleases(s, FreeInode(s, i, fuel).value)
    decreases fuel
  {
    if 0 <= i < MaxInodes {
      FreeInodeUnfold(s, i, fuel);
      var s1, next, f := FreedChainNext(s, i, fuel);
      var s2 := FreedChain(s, i, fuel).value;
      assert OnlyReleases(s, s2) by {
        assert OnlyReleases(s, s1) by {
          forall b | 0 <= b < |s.blockBitmap| * 8 { FreeSlotBlocksEffect(s, s.inodes[i].blocks, b); }
        }
        if s1.inodes[i].nextInode != 0 {
          FreeInodeOnlyReleases(s1, next, f);
          OnlyReleasesTrans(s, s1, s2);
        }
      }
      OnlyReleasesTrans(s, s2, ReleaseRecord(s2, i));
    }
  }

  /** A completed freeInode releases the inode and zeroes its record. */
  lemma FreeInodeReleasesInode(s: FsState, i: nat, fuel: nat)
    requires Shaped(s) && i < MaxInodes && FreeInode(s, i, fuel).Ok?
    ensures FreeInode(s, i, fuel).value.inodes[i] == ZeroInode && !InodeUsed(FreeInode(s, i, fuel).value, i)
  {
    FreeInodeUnfold(s, i, fuel);
  }

  /** A completed freeInode releases every data block the inode lists. */
  lemma FreeInodeReleasesBlocks(s: FsState, i: nat, fuel: nat, b: nat)
    requires Shaped(s) && i < MaxInodes && FreeInode(s, i, fuel).Ok?
    requires b < |s.blockBitmap| * 8 && FreedBy(s, s.inodes[i].blocks, b)
    ensures !BlockUsed(FreeInode(s, i, fuel).value, b)
  {
    FreeInodeUnfold(s, i, fuel);
    var s1, next, f := FreedChainNext(s, i, fuel);
    var s2 := FreedChain(s, i, fuel).value;
    FreeSlotBlocksEffect(s, s.inodes[i].blocks, b);
    assert !BlockUsed(s1, b);
    if s1.inodes[i].nextInode != 0 {
      FreeInodeOnlyReleases(s1, next, f);
    }
    assert !BlockUsed(s2, b);
  }

  /** A completed freeInode releases the next inode of the chain, and so, applying this lemma
      along the chain, every inode of it. */
  lemma FreeInodeReleasesNext(s: FsState, i: nat, fuel: nat)
    requires Shaped(s) && i < MaxInodes && FreeInode(s, i, fuel).Ok?
    requires 0 < s.inodes[i].nextInode < MaxInodes
    ensures FreeInode(s, i, fuel).value.inodes[s.inodes[i].nextInode] == ZeroInode
    ensures !InodeUsed(FreeInode(s, i, fuel).value, s.inodes[i].nextInode)
  {
    FreeInodeUnfold(s, i, fuel);
    var s1, next, f := FreedChainNext(s, i, fuel);
    assert next == s.inodes[i].nextInode as int;
    FreeInodeReleasesInode(s1, next, f);
  }

  /** readBlock: the content of a data block, or a failure past the data region. */
  function ReadBlock(s: FsState, b: uint32): (r: Result<Block>)
    requires Shaped(s)
    ensures r.Ok? <==> b < s.dataBlocks
    ensures r.Err? ==> r.error == IoError
  {
    if b >= s.dataBlocks then Err(IoError) else Ok(s.disk[b])
  }

  /** writeBlock: replaces a data block, or fails past the data region. */
  function WriteBlock(s: FsState, b: uint32, data: Block): (r: Result<FsState>)
    requires Shaped(s)
    ensures r.Ok? <==> b < s.dataBlocks
    ensures r.Err? ==> r.error == IoError
    ensures r.Ok? ==> Shaped(r.value) && r.value.dataBlocks == s.dataBlocks
  {
    if b >= s.dataBlocks then Err(IoError) else Ok(s.(disk := s.disk[b := data]))
  }

  /** A write is read back by the next read of that block, and no other block changes. */
  lemma WriteThenRead(s: FsState, b: uint32, data: Block, c: uint32)
    requires Shaped(s) && WriteBlock(s, b, data).Ok?
    ensures ReadBlock(WriteBlock(s, b, data).value, c) == (if c == b then Ok(data) else ReadBlock(s, c))
    ensures WriteBlock(s, b, data).value.(disk := s.disk) == s
  {
  }

  /** A chain that links an inode to itself makes freeInode recurse without end. */
  lemma {:induction false} FreeInodeSelfLoopDiverges(s: FsState, i: nat, fuel: nat)
    requires Shaped(s) && i < MaxInodes && s.inodes[i].nextInode == i && i != 0
    ensures FreeInode(s, i, fuel) == Err(Diverges)
    decreases fuel
  {
    var s1 := FreeSlotBlocks(s, s.inodes[i].blocks);
    assert s1.inodes == s.inodes;
    if fuel > 0 {
      FreeInodeSelfLoopDiverges(s1, i, fuel - 1);
    }
  }
}
