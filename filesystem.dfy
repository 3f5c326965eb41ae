/** The engine's globals as one object (fs.c:16-30): the block and inode bitmaps and the inode
    table are arrays updated in place, the data region of the disk image is a sequence of blocks
    that readBlock and writeBlock move whole blocks to and from.  Every method is proved to end
    in the state the functions of Store compute from the state it started in. */
module FileSystem {
  import opened FsTypes
  import opened Store
  import Bitmap
  import Layout
  import Init

  class Fs {
    const blockBitmap: array<bv8>
    const inodeBitmap: array<bv8>
    const inodes: array<Inode>
    var disk: seq<Block>
    const dataBlocks: nat

    /** The value the object currently stands for. */
    ghost function State(): FsState
      reads this, blockBitmap, inodeBitmap, inodes
    {
      FsState(blockBitmap[..], inodeBitmap[..], inodes[..], disk, dataBlocks)
    }

    ghost predicate Valid()
      reads this, blockBitmap, inodeBitmap, inodes
    {
      && blockBitmap != inodeBitmap
      && (blockBitmap as object) != (inodes as object) && (inodeBitmap as object) != (inodes as object)
      && Shaped(State())
    }

    /** The part of init_fs before the root is created: the bitmaps and the inode table come
        from calloc, the disk from ftruncate, so every bit, record and block is zero. */
    constructor (l: Layout.Layout)
      requires Init.Fits(l)
      ensures Valid() && State() == Init.FreshState(l)
      ensures fresh(blockBitmap) && fresh(inodeBitmap) && fresh(inodes)
    {
      blockBitmap := new bv8[l.blockBitmapBytes](_ => 0);
      inodeBitmap := new bv8[l.inodeBitmapBytes](_ => 0);
      inodes := new Inode[MaxInodes](_ => ZeroInode);
      disk := seq(l.dataBlocks, _ => ZeroBlock);
      dataBlocks := l.dataBlocks;
      new;
      assert blockBitmap[..] == Init.ZeroBytes(l.blockBitmapBytes);
      assert inodeBitmap[..] == Init.ZeroBytes(l.inodeBitmapBytes);
      assert inodes[..] == seq(MaxInodes, _ => ZeroInode);
    }

    /** allocateBlock: the scan `for (i = 0; i < computed_data_blocks; i++)` for the first
        clear bit, which is then set. */
    method AllocateBlock() returns (b: int)
      requires Valid()
      modifies blockBitmap
      ensures Valid()
      ensures (State(), b) == Store.AllocateBlock(old(State()))
    {
      ghost var s := State();
      var i := 0;
      while i < dataBlocks
        invariant 0 <= i <= dataBlocks
        invariant blockBitmap[..] == s.blockBitmap
        invariant forall k :: 0 <= k < i ==> BlockUsed(s, k)
      {
        if blockBitmap[i / 8] & Bitmap.Mask(i) == 0 {
          AllocateBlockAt(s, i);
          blockBitmap[i / 8] := blockBitmap[i / 8] | Bitmap.Mask(i);
          return i;
        }
        i := i + 1;
      }
      AllocateBlockFull(s);
      return -1;
    }

    /** freeBlock: clears the bit of a data block that is set; anything else is ignored. */
    method FreeBlock(b: int)
      requires Valid()
      modifies blockBitmap
      ensures Valid()
      ensures State() == Store.FreeBlock(old(State()), b)
    {
      if 0 <= b < dataBlocks {
        if blockBitmap[b / 8] & Bitmap.Mask(b) == 0 {
          return;
        }
        FreeBlockAt(State(), b);
        blockBitmap[b / 8] := blockBitmap[b / 8] & !Bitmap.Mask(b);
      }
    }

    /** allocateInode: the first clear bit of the MAX_INODES inode bits is set and its record
        is zeroed. */
    method AllocateInode() returns (n: int)
      requires Valid()
      modifies inodeBitmap, inodes
      ensures Valid()
      ensures (State(), n) == Store.AllocateInode(old(State()))
    {
      ghost var s := State();
      var i := 0;
      while i < MaxInodes
        invariant 0 <= i <= MaxInodes
        invariant inodeBitmap[..] == s.inodeBitmap && inodes[..] == s.inodes
        invariant forall k :: 0 <= k < i ==> InodeUsed(s, k)
      {
        if inodeBitmap[i / 8] & Bitmap.Mask(i) == 0 {
          AllocateInodeAt(s, i);
          inodeBitmap[i / 8] := inodeBitmap[i / 8] | Bitmap.Mask(i);
          inodes[i] := ZeroInode;
          return i;
        }
        i := i + 1;
      }
      AllocateInodeFull(s);
      return -1;
    }

    /** The slot loop of freeInode over the twelve slots of inode i: each positive block
        number is freed. */
    method FreeSlots(i: nat)
      requires Valid() && i < MaxInodes
      modifies blockBitmap
      ensures Valid()
      ensures State() == FreeSlotBlocks(old(State()), old(inodes[i].blocks))
    {
      var k := 0;
      while k < BlocksPerInode
        invariant 0 <= k <= BlocksPerInode && Valid()
        invariant inodes[i].blocks == old(inodes[i].blocks)
        invariant FreeSlotBlocks(State(), inodes[i].blocks[k..]) == FreeSlotBlocks(old(State()), old(inodes[i].blocks))
      {
        var block := AsInt32(inodes[i].blocks[k]);
        assert inodes[i].blocks[k..][1..] == inodes[i].blocks[k + 1..];
        if block > 0 {
          FreeBlock(block);
        }
        k := k + 1;
      }
    }

    /** freeInode: frees the blocks of inode i and, recursively, the chain from its
        next_inode, then clears its bit and zeroes its record.  Where the source would recurse
        for ever the call gives up after fuel links and reports it; the state is then left
        wherever it stands. */
    method FreeInode(i: int, fuel: nat) returns (diverged: bool)
      requires Valid()
      modifies blockBitmap, inodeBitmap, inodes
      ensures Valid()
      ensures diverged == Store.FreeInode(old(State()), i, fuel).Err?
      ensures !diverged ==> State() == Store.FreeInode(old(State()), i, fuel).value
      decreases fuel, 1
    {
      if !(0 <= i < MaxInodes) {
        return false;
      }
      FreeInodeUnfold(State(), i, fuel);
      diverged := FreeChain(i, fuel);
      if diverged {
        return;
      }
      ReleaseRecordAt(State(), i);
      inodeBitmap[i / 8] := inodeBitmap[i / 8] & !Bitmap.Mask(i);
      inodes[i] := ZeroInode;
    }

    /** The first part of freeInode: the slot loop, then the recursive call on next_inode. */
    method FreeChain(i: nat, fuel: nat) returns (diverged: bool)
      requires Valid() && i < MaxInodes
      modifies blockBitmap, inodeBitmap, inodes
      ensures Valid()
      ensures diverged == FreedChain(old(State()), i, fuel).Err?
      ensures !diverged ==> State() == FreedChain(old(State()), i, fuel).value
      decreases fuel, 0
    {
      FreeSlots(i);
      var next := inodes[i].nextInode;
      if next != 0 && fuel > 0 {
        diverged := FreeInode(AsInt32(next), fuel - 1);
      } else {
        diverged := next != 0;
      }
    }

    /** Entry i of the inode table, as the value the state holds. */
    function InodeAt(i: nat): (ino: Inode)
      requires Valid() && i < MaxInodes
      reads this, blockBitmap, inodeBitmap, inodes
      ensures ino == State().inodes[i]
    {
      inodes[i]
    }

    /** An assignment to a field of entry i of the inode table, as in `dir->next_inode = next`:
        the whole record is replaced by ino. */
    method SetInode(i: nat, ino: Inode)
      requires Valid() && i < MaxInodes
      modifies inodes
      ensures Valid()
      ensures State() == Store.SetInode(old(State()), i, ino)
    {
      inodes[i] := ino;
    }

    /** readBlock: a copy of data block b, or a failure past the data region. */
    method ReadBlock(b: uint32) returns (r: Result<Block>)
      requires Valid()
      ensures r == Store.ReadBlock(State(), b)
    {
      if b >= dataBlocks {
        return Err(IoError);
      }
      return Ok(disk[b]);
    }

    /** writeBlock: replaces data block b, or fails past the data region and changes nothing. */
    method WriteBlock(b: uint32, data: Block) returns (r: Outcome)
      requires Valid()
      modifies this
      ensures Valid()
      ensures r.Success? == Store.WriteBlock(old(State()), b, data).Ok?
      ensures r.Success? ==> State() == Store.WriteBlock(old(State()), b, data).value
      ensures r.Failure? ==> State() == old(State()) && r.error == IoError
    {
      if b >= dataBlocks {
        return Failure(IoError);
      }
      disk := disk[b := data];
      return Success;
    }
  }
}
