/** Append and read of byte content (fs_operations.c:447-599).  A file's bytes live in the
    nonzero block slots of its inode and of the inodes chained from it by next_inode, in chain
    order and then slot order; the head inode's size says how many of those bytes are content. */
module Content {
  import opened FsTypes
  import opened Store
  import opened Permissions
  import opened Links
  import Directory

  // ---------------------------------------------------------------- addContentToInode

  /** The loop `while (current->next_inode != 0) current = &inode_table[current->next_inode]`:
      the last inode of the chain from cur. */
  function LastInChain(s: FsState, cur: nat, fuel: nat): (r: Result<nat>)
    requires Shaped(s) && cur < MaxInodes
    ensures r.Ok? ==> r.value < MaxInodes && s.inodes[r.value].nextInode == 0
    ensures s.inodes[cur].nextInode == 0 ==> r == Ok(cur)
    ensures r.Err? ==> r.error == BadIndex || r.error == Diverges
    decreases fuel
  {
    var next := s.inodes[cur].nextInode;
    if next == 0 then Ok(cur)
    else if next >= MaxInodes then Err(BadIndex)
    else if fuel == 0 then Err(Diverges)
    else LastInChain(s, next, fuel - 1)
  }

  /** Following one more link of the chain, with one link less (rest). */
  lemma LastInChainNext(s: FsState, cur: nat, fuel: nat, rest: nat)
    requires Shaped(s) && cur < MaxInodes && 0 < s.inodes[cur].nextInode < MaxInodes && fuel == rest + 1
    ensures LastInChain(s, cur, fuel) == LastInChain(s, s.inodes[cur].nextInode, rest)
  {}

  /** The downward slot scan: the highest nonzero slot, or -1 when every slot is 0. */
  function LastUsedSlot(blocks: seq<uint32>): (k: int)
    ensures -1 <= k < |blocks|
    ensures k >= 0 ==> blocks[k] != 0
    ensures forall i :: k < i < |blocks| ==> blocks[i] == 0
  {
    if |blocks| == 0 then -1
    else if blocks[|blocks| - 1] != 0 then |blocks| - 1
    else LastUsedSlot(blocks[..|blocks| - 1])
  }

  /** The downward scan's answer is the k whose slot is nonzero with only zeros above it
      (-1: every slot is zero). */
  lemma {:induction false} LastUsedSlotIs(blocks: seq<uint32>, k: int)
    requires -1 <= k < |blocks| && (k >= 0 ==> blocks[k] != 0)
    requires forall i :: k < i < |blocks| ==> blocks[i] == 0
    ensures LastUsedSlot(blocks) == k
    decreases |blocks|
  {
    if |blocks| > 0 && k < |blocks| - 1 {
      var front := blocks[..|blocks| - 1];
      assert forall i :: k < i < |front| ==> front[i] == blocks[i];
      LastUsedSlotIs(front, k);
    }
  }

  /** The upward slot scan from i: the lowest zero slot. */
  function FirstZeroSlot(blocks: seq<uint32>, i: nat): (r: Option<nat>)
    requires i <= |blocks|
    ensures r.Some? ==> i <= r.value < |blocks| && blocks[r.value] == 0
    ensures r.Some? ==> forall k :: i <= k < r.value ==> blocks[k] != 0
    ensures r.None? ==> forall k :: i <= k < |blocks| ==> blocks[k] != 0
    decreases |blocks| - i
  {
    if i == |blocks| then None
    else if blocks[i] == 0 then Some(i)
    else FirstZeroSlot(blocks, i + 1)
  }

  /** The block ending in `block` after `memcpy(block + at, data, n)`. */
  function Overwrite(block: Block, at: nat, data: seq<byte>): (r: Block)
    requires at + |data| <= BlockSize
    ensures r[..at] == block[..at] && r[at..at + |data|] == data && r[at + |data|..] == block[at + |data|..]
  {
    block[..at] + data + block[at + |data|..]
  }

  /** The partial-block step.  It runs exactly when the last inode of the chain has a nonzero
      slot and the head's size is not a multiple of BLOCK_SIZE: the highest nonzero slot's block
      is read, as many leading bytes of data as fit after offset size % BLOCK_SIZE are copied in,
      and the block is written back.  Gives the new state and the number of bytes placed. */
  function FillLast(s: FsState, cur: nat, size: uint32, data: seq<byte>): (r: Result<(FsState, nat)>)
    requires Shaped(s) && cur < MaxInodes
    ensures r.Ok? ==> Directory.SameShape(s, r.value.0) && r.value.1 <= |data|
    ensures r.Ok? ==> r.value.0.inodes == s.inodes && r.value.0.blockBitmap == s.blockBitmap && r.value.0.inodeBitmap == s.inodeBitmap
    ensures r.Err? ==> r.error == IoError
  {
    var last := LastUsedSlot(s.inodes[cur].blocks);
    var inner := size % BlockSize;
    if last == -1 || inner == 0 then Ok((s, 0))
    else
      var bn := s.inodes[cur].blocks[last];
      match ReadBlock(s, bn)
      case Err(e) => Err(e)
      case Ok(b) =>
        var n := Min(|data|, BlockSize - inner);
        Ok((WriteBlock(s, bn, Overwrite(b, inner, data[..n])).value, n))
  }

  /** The slot for the next chunk: the lowest zero slot of cur, or, when cur has none, slot 0 of
      a new inode chained from cur and typed regular.  Gives the state and (inode, slot). */
  function ChunkSlot(s: FsState, cur: nat): (r: (FsState, Result<(nat, nat)>))
    requires Shaped(s) && cur < MaxInodes
    ensures Directory.SameShape(s, r.0)
    ensures r.1.Ok? ==> r.1.value.0 < MaxInodes && r.1.value.1 < BlocksPerInode
    ensures r.1.Ok? ==> r.0.inodes[r.1.value.0].blocks[r.1.value.1] == 0
    ensures r.1.Err? ==> r.0 == s && r.1.error == OutOfInodes
  {
    match FirstZeroSlot(s.inodes[cur].blocks, 0)
    case Some(k) => (s, Ok((cur, k)))
    case None =>
      var (s1, n) := AllocateInode(s);
      if n < 0 then (s, Err(OutOfInodes))
      else
        var s2 := SetInode(s1, cur, s1.inodes[cur].(nextInode := n));
        assert s2.inodes[n].blocks == ZeroInode.blocks;
        var s3 := SetInode(s2, n, s2.inodes[n].(kind := Regular));
        (s3, Ok((n, 0)))
  }

  /** One round of the chunk loop: a slot is found, a block is allocated into it (the slot is
      always 0 at that point, so the source's `if (blocks[slot] == 0)` always allocates) and
      the chunk, zero-padded to a whole block, is written there.  Continue names the inode the
      loop goes on with. */
  function PlaceChunk(s: FsState, cur: nat, chunk: seq<byte>): (r: Directory.Step)
    requires Shaped(s) && cur < MaxInodes && |chunk| <= BlockSize
    ensures Directory.SameShape(s, r.state)
    ensures r.Continue? ==> r.next < MaxInodes
    ensures r.Finished? ==> r.outcome.Failure?
  {
    var (s1, at) := ChunkSlot(s, cur);
    match at
    case Err(e) => Directory.Finished(s1, Failure(e))
    case Ok((c, slot)) => PutChunk(s1, c, slot, chunk)
  }

  /** The chunk, zero-padded to a whole block, written to a new block put in slot `slot` of
      inode c, after which the loop goes on at c. */
  function PutChunk(s: FsState, c: nat, slot: nat, chunk: seq<byte>): (r: Directory.Step)
    requires Shaped(s) && c < MaxInodes && slot < BlocksPerInode && |chunk| <= BlockSize
    ensures Directory.SameShape(s, r.state)
    ensures r.Continue? ==> r.next == c
    ensures r.Finished? ==> r == Directory.Finished(s, Failure(OutOfSpace))
  {
    var (s2, nb) := AllocateBlock(s);
    if nb < 0 then Directory.Finished(s, Failure(OutOfSpace))
    else
      var s3 := SetInode(s2, c, s2.inodes[c].(blocks := s2.inodes[c].blocks[slot := nb]));
      var s4 := WriteBlock(s3, nb, chunk + Zeros(BlockSize - |chunk|)).value;
      Directory.Continue(s4, c)
  }

  /** The loop `while (written < data_size)` over the remaining data, a block at a time. */
  function WriteChunks(s: FsState, cur: nat, data: seq<byte>): (r: (FsState, Outcome))
    requires Shaped(s) && cur < MaxInodes
    ensures Directory.SameShape(s, r.0)
    ensures |data| == 0 ==> r == (s, Success)
    decreases |data|
  {
    if |data| == 0 then (s, Success)
    else
      var n := Min(|data|, BlockSize);
      match PlaceChunk(s, cur, data[..n])
      case Finished(t, out) => (t, out)
      case Continue(t, c) => WriteChunks(t, c, data[n..])
  }

  /** One round of the chunk loop at position w of data, with k the position after the chunk. */
  lemma WriteChunksAt(s: FsState, cur: nat, data: seq<byte>, w: nat, k: nat)
    requires Shaped(s) && cur < MaxInodes && w < |data| && k == w + Min(|data| - w, BlockSize)
    ensures WriteChunks(s, cur, data[w..])
      == match PlaceChunk(s, cur, data[w..k])
         case Finished(t, out) => (t, out)
         case Continue(t, c) => WriteChunks(t, c, data[k..])
  {
    assert data[w..][..k - w] == data[w..k];
    assert data[w..][k - w..] == data[k..];
  }

  /** The head ino of t has the size of the head of s grown by n bytes, truncated to 32 bits,
      and was last modified at now. */
  predicate Grown(s: FsState, t: FsState, ino: nat, n: nat, now: int)
    requires Shaped(s) && Shaped(t) && ino < MaxInodes
  {
    t.inodes[ino].size == Wrap32(s.inodes[ino].size + n) && t.inodes[ino].modified == now
  }

  /** addContentToInode: appends data to the file whose head inode is ino, after checking write
      permission on the head.  On success the head's size becomes its old size plus the data's
      length, truncated to 32 bits as the assignment of the size_t offset does. */
  function AddContent(s: FsState, ino: int, data: seq<byte>, uid: uint32, now: int): (r: (FsState, Outcome))
    requires Shaped(s)
    ensures Directory.SameShape(s, r.0)
    ensures !(0 <= ino < MaxInodes) ==> r == (s, Failure(BadArgument))
    ensures 0 <= ino < MaxInodes && HasPermission(s.inodes[ino].permissions, s.inodes[ino].ownerUid, uid, PermWrite) == 0 ==>
      r == (s, Failure(PermissionDenied))
    ensures r.1.Success? ==> 0 <= ino < MaxInodes && Grown(s, r.0, ino, |data|, now)
  {
    if !(0 <= ino < MaxInodes) then (s, Failure(BadArgument))
    else
      var h := s.inodes[ino];
      if HasPermission(h.permissions, h.ownerUid, uid, PermWrite) == 0 then (s, Failure(PermissionDenied))
      else match LastInChain(s, ino, Directory.ChainFuel)
        case Err(e) => (s, Failure(e))
        case Ok(last) => Append(s, ino, last, data, now)
  }

  /** What addContentToInode does once it has reached the last inode of the chain: the
      partial-block step, the chunk loop, and the head's new size and date. */
  function Append(s: FsState, ino: nat, last: nat, data: seq<byte>, now: int): (r: (FsState, Outcome))
    requires Shaped(s) && ino < MaxInodes && last < MaxInodes
    ensures Directory.SameShape(s, r.0)
    ensures r.1.Success? ==> Grown(s, r.0, ino, |data|, now)
  {
    match FillLast(s, last, s.inodes[ino].size, data)
    case Err(e) => (s, Failure(e))
    case Ok((s1, n)) =>
      var (s2, out) := WriteChunks(s1, last, data[n..]);
      if out.Failure? then (s2, out)
      else (SetInode(s2, ino, s2.inodes[ino].(size := Wrap32(s.inodes[ino].size + |data|), modified := now)), Success)
  }

  // ---------------------------------------------------------------- readContentFromInode

  /** The slot loop of the read over the remaining slots, with `want` bytes still to copy:
      each nonzero slot contributes a whole block, or only the first `want` bytes when no more
      are wanted, and the loop stops there. */
  function ReadSlots(s: FsState, slots: seq<uint32>, want: nat): (r: Result<seq<byte>>)
    requires Shaped(s)
    ensures r.Ok? ==> |r.value| <= want
    ensures r.Err? ==> r.error == IoError
    decreases |slots|
  {
    if |slots| == 0 then Ok([])
    else if slots[0] == 0 then ReadSlots(s, slots[1..], want)
    else match ReadBlock(s, slots[0])
      case Err(e) => Err(e)
      case Ok(b) =>
        if want <= BlockSize then Ok(b[..want])
        else match ReadSlots(s, slots[1..], want - BlockSize)
          case Err(e) => Err(e)
          case Ok(rest) => Ok(b + rest)
  }

  /** got followed by what r holds, or r's failure. */
  function Prefixed(got: seq<byte>, r: Result<seq<byte>>): Result<seq<byte>> {
    match r
    case Err(e) => Err(e)
    case Ok(rest) => Ok(got + rest)
  }

  lemma PrefixedNothing(r: Result<seq<byte>>)
    ensures Prefixed([], r) == r
  {
    if r.Ok? {
      assert [] + r.value == r.value;
    }
  }

  /** One slot of the read's slot loop, at position i of slots, with k the position after it. */
  lemma ReadSlotsAt(s: FsState, slots: seq<uint32>, want: nat, i: nat, k: nat)
    requires Shaped(s) && i < |slots| && k == i + 1
    ensures slots[i] == 0 ==> ReadSlots(s, slots[i..], want) == ReadSlots(s, slots[k..], want)
    ensures slots[i] != 0 && ReadBlock(s, slots[i]).Err? ==> ReadSlots(s, slots[i..], want) == Err(ReadBlock(s, slots[i]).error)
    ensures slots[i] != 0 && ReadBlock(s, slots[i]).Ok? && want <= BlockSize ==>
      ReadSlots(s, slots[i..], want) == Ok(ReadBlock(s, slots[i]).value[..want])
    ensures slots[i] != 0 && ReadBlock(s, slots[i]).Ok? && want > BlockSize ==>
      ReadSlots(s, slots[i..], want) == Prefixed(ReadBlock(s, slots[i]).value, ReadSlots(s, slots[k..], want - BlockSize))
  {
    assert slots[i..][1..] == slots[k..];
  }

  /** Prefixing twice is prefixing with the concatenation. */
  lemma PrefixedTwice(a: seq<byte>, b: seq<byte>, r: Result<seq<byte>>)
    ensures Prefixed(a, Prefixed(b, r)) == Prefixed(a + b, r)
  {
    if r.Ok? {
      assert a + (b + r.value) == (a + b) + r.value;
    }
  }

  /** The chain loop of the read: collects the slots of cur, and goes on to next_inode while
      fewer than `want` bytes have been copied and the chain goes on. The loop only runs for
      ever when it keeps passing over inodes that copy nothing, so `idle` bounds the links in a
      row that copy nothing: every inode that copies a byte brings it back to ChainFuel. After
      ChainFuel such links the walk has met some inode twice with nothing copied in between, and
      the source would repeat that cycle for ever. */
  function ReadChain(s: FsState, cur: nat, want: nat, idle: nat): (r: Result<seq<byte>>)
    requires Shaped(s) && cur < MaxInodes
    ensures r.Ok? ==> |r.value| <= want
    ensures r.Err? ==> r.error == IoError || r.error == BadIndex || r.error == Diverges
    decreases want, idle
  {
    match ReadSlots(s, s.inodes[cur].blocks, want)
    case Err(e) => Err(e)
    case Ok(got) =>
      var next := s.inodes[cur].nextInode;
      if |got| >= want || next == 0 then Ok(got)
      else if next >= MaxInodes then Err(BadIndex)
      else if |got| == 0 && idle == 0 then Err(Diverges)
      else match ReadChain(s, next, want - |got|, NextIdle(got, idle))
        case Err(e) => Err(e)
        case Ok(rest) => Ok(got + rest)
  }

  /** The idle bound after an inode that copied got: one less when it copied nothing, back to
      ChainFuel otherwise. */
  function NextIdle(got: seq<byte>, idle: nat): nat
    requires |got| > 0 || idle > 0
  {
    if |got| == 0 then idle - 1 else Directory.ChainFuel
  }

  /** A read that goes on past inode cur collects cur's bytes and then the chain from next_inode
      with the idle bound NextIdle gives (rest). */
  lemma ReadChainContinues(s: FsState, cur: nat, want: nat, idle: nat, rest: nat, got: seq<byte>)
    requires Shaped(s) && cur < MaxInodes && ReadSlots(s, s.inodes[cur].blocks, want) == Ok(got)
    requires |got| < want && 0 < s.inodes[cur].nextInode < MaxInodes
    requires (|got| > 0 || idle > 0) && rest == NextIdle(got, idle)
    ensures ReadChain(s, cur, want, idle) == Prefixed(got, ReadChain(s, s.inodes[cur].nextInode, want - |got|, rest))
  {}

  /** Where the read has a readable nonzero slot at k and bytes to copy, it copies at least
      one byte. */
  lemma {:induction false} ReadSlotsProgress(s: FsState, slots: seq<uint32>, want: nat, k: nat)
    requires Shaped(s) && k < |slots| && slots[k] != 0 && want > 0
    requires forall m :: 0 <= m < |slots| ==> slots[m] < s.dataBlocks
    ensures ReadSlots(s, slots, want).Ok? && |ReadSlots(s, slots, want).value| > 0
    decreases |slots|
  {
    if slots[0] == 0 {
      assert slots[1..][k - 1] == slots[k];
      ReadSlotsProgress(s, slots[1..], want, k - 1);
    } else if want > BlockSize {
      ReadSlotsWhole(s, slots[1..], want - BlockSize);
    }
  }

  /** Slots that all lie inside the data region read without an error. */
  lemma {:induction false} ReadSlotsWhole(s: FsState, slots: seq<uint32>, want: nat)
    requires Shaped(s) && forall m :: 0 <= m < |slots| ==> slots[m] < s.dataBlocks
    ensures ReadSlots(s, slots, want).Ok?
    decreases |slots|
  {
    if |slots| > 0 && (slots[0] == 0 || want > BlockSize) {
      assert forall m :: 0 <= m < |slots[1..]| ==> slots[1..][m] == slots[m + 1];
      ReadSlotsWhole(s, slots[1..], if slots[0] == 0 then want else want - BlockSize);
    }
  }

  /** On an inode other than the root that is its own next_inode and names a readable block at
      slot k, the read copies all `want` bytes: it passes over the block again and again, as
      the source does, and never gives up. */
  lemma {:induction false} SelfLinkedReads(s: FsState, c: nat, k: nat, want: nat, idle: nat)
    requires Shaped(s) && 0 < c < MaxInodes && s.inodes[c].nextInode as nat == c
    requires k < BlocksPerInode && s.inodes[c].blocks[k] != 0
    requires forall m :: 0 <= m < BlocksPerInode ==> s.inodes[c].blocks[m] < s.dataBlocks
    ensures ReadChain(s, c, want, idle).Ok? && |ReadChain(s, c, want, idle).value| == want
    decreases want
  {
    if want == 0 {
      ReadSlotsWhole(s, s.inodes[c].blocks, want);
    } else {
      ReadSlotsProgress(s, s.inodes[c].blocks, want, k);
      var got := ReadSlots(s, s.inodes[c].blocks, want).value;
      if |got| < want {
        assert NextIdle(got, idle) == Directory.ChainFuel;
        SelfLinkedReads(s, c, k, want - |got|, Directory.ChainFuel);
      }
    }
  }

  /** readContentFromInode: follows symlinks from ino, checks read permission on the inode
      reached, refuses a buffer of fewer than size + 1 bytes (room for the closing NUL) and
      copies at most size bytes of content. */
  function ReadContent(s: FsState, ino: nat, capacity: nat, uid: uint32): (r: Result<seq<byte>>)
    requires Shaped(s) && ino < MaxInodes
    ensures FollowLinks(s, ino, 0).Err? ==> r == Err(FollowLinks(s, ino, 0).error)
    ensures FollowLinks(s, ino, 0).Ok? && capacity < s.inodes[FollowLinks(s, ino, 0).value].size + 1 ==> r.Err?
    ensures r.Ok? ==> FollowLinks(s, ino, 0).Ok? && |r.value| <= s.inodes[FollowLinks(s, ino, 0).value].size < capacity
  {
    match FollowLinks(s, ino, 0)
    case Err(e) => Err(e)
    case Ok(target) =>
      var f := s.inodes[target];
      if HasPermission(f.permissions, f.ownerUid, uid, PermRead) == 0 then Err(PermissionDenied)
      else if capacity < f.size + 1 then Err(BufferTooSmall)
      else ReadChain(s, target, f.size, Directory.ChainFuel)
  }

  /** readContentFromInode on a file other than the root that is its own next_inode and names
      a readable block copies all size bytes, given read access and a buffer with room for
      the closing NUL. */
  lemma SelfLinkedReadContent(s: FsState, c: nat, k: nat, capacity: nat, uid: uint32)
    requires Shaped(s) && 0 < c < MaxInodes && s.inodes[c].nextInode as nat == c && s.inodes[c].kind != Symlink
    requires k < BlocksPerInode && s.inodes[c].blocks[k] != 0
    requires forall m :: 0 <= m < BlocksPerInode ==> s.inodes[c].blocks[m] < s.dataBlocks
    requires HasPermission(s.inodes[c].permissions, s.inodes[c].ownerUid, uid, PermRead) != 0
    requires capacity > s.inodes[c].size
    ensures ReadContent(s, c, capacity, uid).Ok? && |ReadContent(s, c, capacity, uid).value| == s.inodes[c].size
  {
    SelfLinkedReads(s, c, k, s.inodes[c].size, Directory.ChainFuel);
  }
}
