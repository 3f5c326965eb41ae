/** addContentToInode and readContentFromInode (fs_operations.c:447-599) run in place on the
    object of filesystem.dfy: the walk to the chain's last inode, the slot scans, the
    partial-block step, the chunk loop, and the read's slot and chain loops.  Each method is
    proved to compute what the function of the same name in Content computes. */
module ContentOps {
  import opened FsTypes
  import opened Store
  import opened Permissions
  import opened FileSystem
  import Dir = Directory
  import opened Content
  import LinkOps

  // ---------------------------------------------------------------- addContentToInode

  /** `while (current->next_inode != 0) current = &inode_table[current->next_inode]`. */
  method LastInChain(fs: Fs, start: nat, limit: nat) returns (r: Result<nat>)
    requires fs.Valid() && start < MaxInodes
    ensures r == Content.LastInChain(fs.State(), start, limit)
  {
    var cur: nat := start;
    var fuel: nat := limit;
    while fs.InodeAt(cur).nextInode != 0
      invariant cur < MaxInodes
      invariant Content.LastInChain(fs.State(), cur, fuel) == Content.LastInChain(fs.State(), start, limit)
      decreases fuel
    {
      var next := fs.InodeAt(cur).nextInode;
      if next >= MaxInodes {
        return Err(BadIndex);
      }
      if fuel == 0 {
        return Err(Diverges);
      }
      var rest := fuel - 1;
      LastInChainNext(fs.State(), cur, fuel, rest);
      cur, fuel := next, rest;
    }
    return Ok(cur);
  }

  /** `for (i = BLOCKS_PER_INODE - 1; i >= 0; --i) if (blocks[i] != 0) break;`. */
  method LastUsedSlot(blocks: seq<uint32>) returns (k: int)
    ensures k == Content.LastUsedSlot(blocks)
  {
    var i := |blocks| - 1;
    while i >= 0
      invariant -1 <= i < |blocks|
      invariant forall j :: i < j < |blocks| ==> blocks[j] == 0
    {
      if blocks[i] != 0 {
        LastUsedSlotIs(blocks, i);
        return i;
      }
      i := i - 1;
    }
    LastUsedSlotIs(blocks, -1);
    return -1;
  }

  /** `for (i = 0; i < BLOCKS_PER_INODE; ++i) if (blocks[i] == 0) { slot = i; break; }`. */
  method FirstZeroSlot(blocks: seq<uint32>) returns (r: Option<nat>)
    ensures r == Content.FirstZeroSlot(blocks, 0)
  {
    var i := 0;
    while i < |blocks|
      invariant 0 <= i <= |blocks|
      invariant Content.FirstZeroSlot(blocks, i) == Content.FirstZeroSlot(blocks, 0)
    {
      if blocks[i] == 0 {
        return Some(i);
      }
      i := i + 1;
    }
    return None;
  }

  /** The partial-block step on the last inode cur of the chain, where the head's size is size:
      the number of leading bytes of data it placed. */
  method FillLast(fs: Fs, cur: nat, size: uint32, data: seq<byte>) returns (r: Result<nat>)
    requires fs.Valid() && cur < MaxInodes
    modifies fs
    ensures fs.Valid()
    ensures r.Ok? ==> Content.FillLast(old(fs.State()), cur, size, data) == Ok((fs.State(), r.value))
    ensures r.Err? ==> Content.FillLast(old(fs.State()), cur, size, data) == Err(r.error) && fs.State() == old(fs.State())
  {
    var last := LastUsedSlot(fs.InodeAt(cur).blocks);
    var inner := size % BlockSize;
    if last == -1 || inner == 0 {
      return Ok(0);
    }
    var bn := fs.InodeAt(cur).blocks[last];
    var read := fs.ReadBlock(bn);
    if read.Err? {
      return Err(read.error);
    }
    var n := Min(|data|, BlockSize - inner);
    // the block was just read, so writing it back succeeds
    var _ := fs.WriteBlock(bn, Overwrite(read.value, inner, data[..n]));
    return Ok(n);
  }

  /** The slot for the next chunk: the lowest zero slot of cur, or slot 0 of a new inode chained
      from cur. */
  method ChunkSlot(fs: Fs, cur: nat) returns (r: Result<(nat, nat)>)
    requires fs.Valid() && cur < MaxInodes
    modifies fs.inodeBitmap, fs.inodes
    ensures fs.Valid()
    ensures (fs.State(), r) == Content.ChunkSlot(old(fs.State()), cur)
  {
    var k := FirstZeroSlot(fs.InodeAt(cur).blocks);
    if k.Some? {
      return Ok((cur, k.value));
    }
    var n := fs.AllocateInode();
    if n < 0 {
      return Err(OutOfInodes);
    }
    fs.SetInode(cur, fs.InodeAt(cur).(nextInode := n));
    fs.SetInode(n, fs.InodeAt(n).(kind := Regular));
    return Ok((n, 0));
  }

  /** One round of the chunk loop: the chunk lands, zero-padded, in a new block of the slot
      ChunkSlot finds; the loop goes on at inode next. */
  method PlaceChunk(fs: Fs, cur: nat, chunk: seq<byte>) returns (done: bool, out: Outcome, next: nat)
    requires fs.Valid() && cur < MaxInodes && |chunk| <= BlockSize
    modifies fs, fs.blockBitmap, fs.inodeBitmap, fs.inodes
    ensures fs.Valid()
    ensures fs.State() == Content.PlaceChunk(old(fs.State()), cur, chunk).state
    ensures done == Content.PlaceChunk(old(fs.State()), cur, chunk).Finished?
    ensures done ==> out == Content.PlaceChunk(old(fs.State()), cur, chunk).outcome
    ensures !done ==> next == Content.PlaceChunk(old(fs.State()), cur, chunk).next
  {
    var at := ChunkSlot(fs, cur);
    if at.Err? {
      return true, Failure(at.error), 0;
    }
    var (c, slot) := at.value;
    done, out, next := PutChunk(fs, c, slot, chunk);
  }

  /** The chunk, zero-padded, written to a new block put in slot `slot` of inode c. */
  method PutChunk(fs: Fs, c: nat, slot: nat, chunk: seq<byte>) returns (done: bool, out: Outcome, next: nat)
    requires fs.Valid() && c < MaxInodes && slot < BlocksPerInode && |chunk| <= BlockSize
    modifies fs, fs.blockBitmap, fs.inodes
    ensures fs.Valid()
    ensures fs.State() == Content.PutChunk(old(fs.State()), c, slot, chunk).state
    ensures done == Content.PutChunk(old(fs.State()), c, slot, chunk).Finished?
    ensures done ==> out == Failure(OutOfSpace)
    ensures !done ==> next == c
  {
    var nb := fs.AllocateBlock();
    if nb < 0 {
      return true, Failure(OutOfSpace), 0;
    }
    var ino := fs.InodeAt(c);
    fs.SetInode(c, ino.(blocks := ino.blocks[slot := nb]));
    // nb lies in the data region, so the write succeeds
    var _ := fs.WriteBlock(nb, chunk + Zeros(BlockSize - |chunk|));
    return false, Success, c;
  }

  /** The loop `while (written < data_size)`, a block of data at a time. */
  method WriteChunks(fs: Fs, start: nat, data: seq<byte>) returns (r: Outcome)
    requires fs.Valid() && start < MaxInodes
    modifies fs, fs.blockBitmap, fs.inodeBitmap, fs.inodes
    ensures fs.Valid()
    ensures (fs.State(), r) == Content.WriteChunks(old(fs.State()), start, data)
  {
    var cur: nat := start;
    var written := 0;
    while written < |data|
      invariant 0 <= written <= |data| && cur < MaxInodes && fs.Valid()
      invariant Content.WriteChunks(fs.State(), cur, data[written..]) == Content.WriteChunks(old(fs.State()), start, data)
    {
      var k := written + Min(|data| - written, BlockSize);
      WriteChunksAt(fs.State(), cur, data, written, k);
      var done, out;
      done, out, cur := PlaceChunk(fs, cur, data[written..k]);
      if done {
        return out;
      }
      written := k;
    }
    return Success;
  }

  /** addContentToInode. */
  method AddContent(fs: Fs, ino: int, data: seq<byte>, uid: uint32, now: int) returns (r: Outcome)
    requires fs.Valid()
    modifies fs, fs.blockBitmap, fs.inodeBitmap, fs.inodes
    ensures fs.Valid()
    ensures (fs.State(), r) == Content.AddContent(old(fs.State()), ino, data, uid, now)
  {
    if !(0 <= ino < MaxInodes) {
      return Failure(BadArgument);
    }
    var h := fs.InodeAt(ino);
    if HasPermission(h.permissions, h.ownerUid, uid, PermWrite) == 0 {
      return Failure(PermissionDenied);
    }
    var last := LastInChain(fs, ino, Dir.ChainFuel);
    if last.Err? {
      return Failure(last.error);
    }
    r := Append(fs, ino, last.value, data, now);
  }

  /** The partial-block step, the chunk loop and the head's new size and date. */
  method Append(fs: Fs, ino: nat, last: nat, data: seq<byte>, now: int) returns (r: Outcome)
    requires fs.Valid() && ino < MaxInodes && last < MaxInodes
    modifies fs, fs.blockBitmap, fs.inodeBitmap, fs.inodes
    ensures fs.Valid()
    ensures (fs.State(), r) == Content.Append(old(fs.State()), ino, last, data, now)
  {
    var size := fs.InodeAt(ino).size;
    var filled := FillLast(fs, last, size, data);
    if filled.Err? {
      return Failure(filled.error);
    }
    r := WriteChunks(fs, last, data[filled.value..]);
    if r.Failure? {
      return;
    }
    var head := fs.InodeAt(ino).(size := Wrap32(size + |data|), modified := now);
    fs.SetInode(ino, head);
  }

  // ---------------------------------------------------------------- readContentFromInode

  /** The slot loop of the read over the slots of inode cur with `want` bytes still to copy. */
  method ReadSlots(fs: Fs, cur: nat, want: nat) returns (r: Result<seq<byte>>)
    requires fs.Valid() && cur < MaxInodes
    ensures r == Content.ReadSlots(fs.State(), fs.InodeAt(cur).blocks, want)
  {
    ghost var slots := fs.InodeAt(cur).blocks;
    var got: seq<byte> := [];
    PrefixedNothing(Content.ReadSlots(fs.State(), slots, want));
    var i := 0;
    while i < BlocksPerInode
      invariant 0 <= i <= BlocksPerInode && |got| <= want
      invariant Content.ReadSlots(fs.State(), slots, want)
        == Prefixed(got, Content.ReadSlots(fs.State(), slots[i..], want - |got|))
    {
      ReadSlotsAt(fs.State(), slots, want - |got|, i, i + 1);
      var bn := fs.InodeAt(cur).blocks[i];
      if bn != 0 {
        var read := fs.ReadBlock(bn);
        if read.Err? {
          return Err(read.error);
        }
        if want - |got| <= BlockSize {
          return Ok(got + read.value[..want - |got|]);
        }
        PrefixedTwice(got, read.value, Content.ReadSlots(fs.State(), slots[i + 1..], want - |got| - BlockSize));
        assert want - |got + read.value| == want - |got| - BlockSize;
        got := got + read.value;
      }
      i := i + 1;
    }
    assert slots[BlocksPerInode..] == [];
    assert got + [] == got;
    return Ok(got);
  }

  /** One round of the read's chain loop at inode cur with `want` bytes still to copy: either
      the read ends here with r, or cur contributed got and the loop goes on at next. */
  method ReadRound(fs: Fs, cur: nat, want: nat, fuel: nat)
    returns (done: bool, r: Result<seq<byte>>, got: seq<byte>, next: nat, rest: nat)
    requires fs.Valid() && cur < MaxInodes
    ensures done ==> r == Content.ReadChain(fs.State(), cur, want, fuel)
    ensures !done ==> |got| < want && next < MaxInodes && (|got| > 0 || rest < fuel)
    ensures !done ==>
              Content.ReadChain(fs.State(), cur, want, fuel)
              == Prefixed(got, Content.ReadChain(fs.State(), next, want - |got|, rest))
  {
    var slots := ReadSlots(fs, cur, want);
    if slots.Err? {
      return true, Err(slots.error), [], 0, 0;
    }
    got := slots.value;
    next := fs.InodeAt(cur).nextInode;
    if |got| >= want || next == 0 {
      return true, Ok(got), got, 0, 0;
    }
    if next >= MaxInodes {
      return true, Err(BadIndex), got, 0, 0;
    }
    if |got| == 0 && fuel == 0 {
      return true, Err(Diverges), got, 0, 0;
    }
    rest := NextIdle(got, fuel);
    ReadChainContinues(fs.State(), cur, want, fuel, rest, got);
    return false, Ok([]), got, next, rest;
  }

  /** The chain loop of the read from inode start with `want` bytes to copy. */
  method ReadChain(fs: Fs, start: nat, want: nat, limit: nat) returns (r: Result<seq<byte>>)
    requires fs.Valid() && start < MaxInodes
    ensures r == Content.ReadChain(fs.State(), start, want, limit)
  {
    var cur: nat := start;
    var fuel: nat := limit;
    var acc: seq<byte> := [];
    PrefixedNothing(Content.ReadChain(fs.State(), start, want, limit));
    while true
      invariant cur < MaxInodes && |acc| <= want
      invariant Content.ReadChain(fs.State(), start, want, limit)
        == Prefixed(acc, Content.ReadChain(fs.State(), cur, want - |acc|, fuel))
      decreases want - |acc|, fuel
    {
      var done, out, got, next, rest := ReadRound(fs, cur, want - |acc|, fuel);
      if done {
        return Prefixed(acc, out);
      }
      PrefixedTwice(acc, got, Content.ReadChain(fs.State(), next, want - |acc| - |got|, rest));
      assert want - |acc + got| == want - |acc| - |got|;
      cur, fuel, acc := next, rest, acc + got;
    }
  }

  /** readContentFromInode: the bytes copied into the caller's buffer of `capacity` bytes. */
  method ReadContent(fs: Fs, ino: nat, capacity: nat, uid: uint32) returns (r: Result<seq<byte>>)
    requires fs.Valid() && ino < MaxInodes
    ensures r == Content.ReadContent(fs.State(), ino, capacity, uid)
  {
    var target := LinkOps.FollowLinks(fs, ino);
    if target.Err? {
      return Err(target.error);
    }
    var f := fs.InodeAt(target.value);
    if HasPermission(f.permissions, f.ownerUid, uid, PermRead) == 0 {
      return Err(PermissionDenied);
    }
    if capacity < f.size + 1 {
      return Err(BufferTooSmall);
    }
    r := ReadChain(fs, target.value, f.size, Dir.ChainFuel);
  }
}
