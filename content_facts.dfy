/** What appending and reading content mean for a file held in one inode (fs_operations.c:447-599):
    the file's bytes are the concatenation of its nonzero slots' blocks in slot order, cut at
    its size; appending and then reading gives the old bytes followed by the new ones. */
module ContentFacts {
  import opened FsTypes
  import opened Store
  import opened Permissions
  import opened Links
  import opened Content
  import Directory

  /** The most bytes one inode's twelve slots can hold. */
  const InodeCapacity: nat := BlocksPerInode * BlockSize

  /** The number of blocks n bytes occupy. */
  function BlocksFor(n: nat): (b: nat)
    ensures BlockSize * (b - 1) < n <= BlockSize * b || (n == 0 && b == 0)
  {
    (n + BlockSize - 1) / BlockSize
  }

  /** The bytes of the blocks bl, one after the other. */
  function Data(s: FsState, bl: seq<uint32>): (d: seq<byte>)
    requires Shaped(s) && forall k :: 0 <= k < |bl| ==> bl[k] < s.dataBlocks
    ensures |d| == BlockSize * |bl|
  {
    if |bl| == 0 then [] else s.disk[bl[0]] + Data(s, bl[1..])
  }

  /** The shape of a file of b blocks held in inode ino: its first b slots name distinct used
      blocks other than block 0, the other slots are 0 and the inode has no successor. */
  predicate Laid(s: FsState, ino: nat, b: nat) {
    && Shaped(s) && ino < MaxInodes && b <= BlocksPerInode
    && var node := s.inodes[ino];
    && node.nextInode == 0
    && (forall k :: 0 <= k < b ==> 0 < node.blocks[k] < s.dataBlocks && BlockUsed(s, node.blocks[k]))
    && (forall k :: b <= k < BlocksPerInode ==> node.blocks[k] == 0)
    && (forall k, m :: 0 <= k < m < b ==> node.blocks[k] != node.blocks[m])
  }

  /** `content` is what inode ino holds: it has the shape of a file of BlocksFor(|content|)
      blocks, and those blocks' bytes begin with content.  The size field is not part of this. */
  predicate Stored(s: FsState, ino: nat, content: seq<byte>) {
    && Laid(s, ino, BlocksFor(|content|))
    && content == Data(s, s.inodes[ino].blocks[..BlocksFor(|content|)])[..|content|]
  }

  /** A file of content: stored in its inode, with the size field saying how long it is. */
  predicate Holds(s: FsState, ino: nat, content: seq<byte>) {
    Stored(s, ino, content) && s.inodes[ino].size == |content|
  }

  /** The highest nonzero slot of a stored file is its last block's. */
  lemma LastSlotStored(s: FsState, ino: nat, content: seq<byte>)
    requires Stored(s, ino, content)
    ensures LastUsedSlot(s.inodes[ino].blocks) == BlocksFor(|content|) - 1
  {
    var blocks := s.inodes[ino].blocks;
    var b := BlocksFor(|content|);
    var k := LastUsedSlot(blocks);
    if b > 0 {
      assert blocks[b - 1] != 0;
    }
    if k >= 0 {
      assert blocks[k] != 0;
    }
  }

  // ---------------------------------------------------------------- helpers on Data

  lemma SplitJoin(a: seq<byte>, d: seq<byte>, n: nat)
    requires n <= |d|
    ensures a + d[..n] + d[n..] == a + d
  {
    assert d[..n] + d[n..] == d;
  }

  lemma {:induction false} DataSnoc(s: FsState, bl: seq<uint32>, x: uint32)
    requires Shaped(s) && x < s.dataBlocks && forall k :: 0 <= k < |bl| ==> bl[k] < s.dataBlocks
    ensures Data(s, bl + [x]) == Data(s, bl) + s.disk[x]
    decreases |bl|
  {
    if |bl| == 0 {
      assert bl + [x] == [x];
    } else {
      assert (bl + [x])[1..] == bl[1..] + [x];
      DataSnoc(s, bl[1..], x);
    }
  }

  /** Data over blocks whose contents agree in two states is the same. */
  lemma {:induction false} DataFrame(s: FsState, t: FsState, bl: seq<uint32>)
    requires Shaped(s) && Shaped(t) && s.dataBlocks == t.dataBlocks
    requires forall k :: 0 <= k < |bl| ==> bl[k] < s.dataBlocks && s.disk[bl[k]] == t.disk[bl[k]]
    ensures Data(s, bl) == Data(t, bl)
    decreases |bl|
  {
    if |bl| > 0 {
      DataFrame(s, t, bl[1..]);
    }
  }

  // ---------------------------------------------------------------- reading

  lemma {:induction false} ReadZeroSlots(s: FsState, zeros: seq<uint32>)
    requires Shaped(s) && forall k :: 0 <= k < |zeros| ==> zeros[k] == 0
    ensures ReadSlots(s, zeros, 0) == Ok([])
    decreases |zeros|
  {
    if |zeros| > 0 {
      ReadZeroSlots(s, zeros[1..]);
    }
  }

  /** The slot loop of the read over nonzero blocks bl followed by zero slots copies the first
      `want` bytes of bl's blocks, when bl is exactly as long as `want` bytes need. */
  lemma {:induction false} ReadSlotsData(s: FsState, bl: seq<uint32>, zeros: seq<uint32>, want: nat)
    requires Shaped(s) && forall k :: 0 <= k < |bl| ==> 0 < bl[k] < s.dataBlocks
    requires forall k :: 0 <= k < |zeros| ==> zeros[k] == 0
    requires |bl| == BlocksFor(want)
    ensures ReadSlots(s, bl + zeros, want) == Ok(Data(s, bl)[..want])
    decreases |bl|
  {
    if |bl| == 0 {
      assert bl + zeros == zeros;
      ReadZeroSlots(s, zeros);
    } else {
      var b := s.disk[bl[0]];
      assert (bl + zeros)[0] == bl[0];
      assert ReadBlock(s, bl[0]) == Ok(b);
      if want > BlockSize {
        assert (bl + zeros)[1..] == bl[1..] + zeros;
        assert BlocksFor(want - BlockSize) == |bl| - 1;
        ReadSlotsData(s, bl[1..], zeros, want - BlockSize);
        assert Data(s, bl)[..want] == b + Data(s, bl[1..])[..want - BlockSize];
      } else {
        assert Data(s, bl)[..want] == b[..want];
      }
    }
  }

  /** The chain loop of the read over a stored file copies exactly its content. */
  lemma ReadChainStored(s: FsState, ino: nat, content: seq<byte>, fuel: nat)
    requires Stored(s, ino, content)
    ensures ReadChain(s, ino, |content|, fuel) == Ok(content)
  {
    var blocks := s.inodes[ino].blocks;
    var b := BlocksFor(|content|);
    assert blocks == blocks[..b] + blocks[b..];
    ReadSlotsData(s, blocks[..b], blocks[b..], |content|);
  }

  /** readContentFromInode on a file that is not a symlink, holds content, grants read access
      and gets a buffer with room for the closing NUL gives exactly the content. */
  lemma ReadHeld(s: FsState, ino: nat, content: seq<byte>, capacity: nat, uid: uint32)
    requires Holds(s, ino, content) && s.inodes[ino].kind != Symlink
    requires HasPermission(s.inodes[ino].permissions, s.inodes[ino].ownerUid, uid, PermRead) != 0
    requires capacity > |content|
    ensures ReadContent(s, ino, capacity, uid) == Ok(content)
  {
    ReadChainStored(s, ino, content, Directory.ChainFuel);
  }

  /** A file with no blocks and no successor holds nothing. */
  lemma EmptyStored(s: FsState, ino: nat)
    requires Shaped(s) && ino < MaxInodes
    requires s.inodes[ino].blocks == NoBlocks && s.inodes[ino].nextInode == 0
    ensures Stored(s, ino, [])
  {
  }

  // ---------------------------------------------------------------- appending

  /** The free room in the last block of content. */
  function Room(n: nat): (r: nat)
    ensures n + r == BlockSize * BlocksFor(n)
  {
    BlockSize * BlocksFor(n) - n
  }

  /** Filling the room of the last block leaves a whole number of blocks. */
  lemma RoomFills(n: nat)
    ensures (n + Room(n)) % BlockSize == 0
  {
    WholeBlocks(BlocksFor(n));
  }

  /** No room is left after a whole number of blocks. */
  lemma NoRoom(n: nat)
    requires n % BlockSize == 0
    ensures Room(n) == 0
  {
  }

  lemma WholeBlocks(b: nat)
    ensures (BlockSize * b) % BlockSize == 0
  {
  }

  /** The partial-block step on a stored file adds as many bytes as fit in its last block and
      changes only that block's bytes. */
  lemma FillLastStored(s: FsState, ino: nat, content: seq<byte>, data: seq<byte>)
    requires Stored(s, ino, content)
    ensures FillLast(s, ino, |content|, data).Ok?
    ensures var (s1, n) := FillLast(s, ino, |content|, data).value;
      && n == Min(|data|, Room(|content|))
      && Stored(s1, ino, content + data[..n])
      && s1.inodes == s.inodes && s1.blockBitmap == s.blockBitmap && s1.inodeBitmap == s.inodeBitmap
  {
    LastSlotStored(s, ino, content);
    if |content| % BlockSize != 0 {
      FillLastWrites(s, ino, content, data);
    } else {
      NoRoom(|content|);
      assert content + data[..0] == content;
    }
  }

  /** Rewriting the last block of a stored file so that it keeps the content's bytes in it and
      has extra after them stores content + extra. */
  lemma StoredExtendLast(s: FsState, ino: nat, content: seq<byte>, nb: Block, extra: seq<byte>)
    requires Stored(s, ino, content) && BlocksFor(|content|) > 0
    requires |content| + |extra| <= BlockSize * BlocksFor(|content|)
    requires var inner := |content| - BlockSize * (BlocksFor(|content|) - 1);
      var bn := s.inodes[ino].blocks[BlocksFor(|content|) - 1];
      nb[..inner] == s.disk[bn][..inner] && nb[inner..inner + |extra|] == extra
    ensures Stored(s.(disk := s.disk[s.inodes[ino].blocks[BlocksFor(|content|) - 1] := nb]), ino, content + extra)
  {
    var blocks := s.inodes[ino].blocks;
    var b := BlocksFor(|content|);
    var bn := blocks[b - 1];
    var s1 := s.(disk := s.disk[bn := nb]);
    var c2 := content + extra;
    assert BlocksFor(|c2|) == b;
    assert Laid(s1, ino, b) by {
      assert forall x :: 0 <= x < |s.blockBitmap| * 8 ==> BlockUsed(s1, x) == BlockUsed(s, x);
    }
    ExtendLastData(s, ino, content, nb, extra);
  }

  lemma ExtendLastData(s: FsState, ino: nat, content: seq<byte>, nb: Block, extra: seq<byte>)
    requires Stored(s, ino, content) && BlocksFor(|content|) > 0
    requires |content| + |extra| <= BlockSize * BlocksFor(|content|)
    requires var inner := |content| - BlockSize * (BlocksFor(|content|) - 1);
      var bn := s.inodes[ino].blocks[BlocksFor(|content|) - 1];
      nb[..inner] == s.disk[bn][..inner] && nb[inner..inner + |extra|] == extra
    ensures var s1 := s.(disk := s.disk[s.inodes[ino].blocks[BlocksFor(|content|) - 1] := nb]);
      content + extra == Data(s1, s.inodes[ino].blocks[..BlocksFor(|content|)])[..|content| + |extra|]
  {
    var blocks := s.inodes[ino].blocks;
    var b := BlocksFor(|content|);
    var bn := blocks[b - 1];
    var s1 := s.(disk := s.disk[bn := nb]);
    var inner := |content| - BlockSize * (b - 1);
    var pre := blocks[..b - 1];
    assert blocks[..b] == pre + [bn];
    DataSnoc(s, pre, bn);
    DataSnoc(s1, pre, bn);
    DataFrame(s, s1, pre);
    ExtendBytes(Data(s, pre), s.disk[bn], nb, content, extra, inner);
  }

  /** Bytes d followed by a block whose first inner bytes end content: replacing the block by
      one that keeps those bytes and has extra after them extends content by extra. */
  lemma ExtendBytes(d: seq<byte>, prev: seq<byte>, nb: seq<byte>, content: seq<byte>, extra: seq<byte>, inner: nat)
    requires |d| + inner == |content| && inner + |extra| <= |nb| && inner <= |prev|
    requires content == (d + prev)[..|content|]
    requires nb[..inner] == prev[..inner] && nb[inner..inner + |extra|] == extra
    ensures content + extra == (d + nb)[..|content| + |extra|]
  {
    assert (d + prev)[..|content|] == d + prev[..inner];
    assert (d + nb)[..|content| + |extra|] == d + nb[..inner + |extra|];
    assert nb[..inner + |extra|] == nb[..inner] + extra;
  }

  /** The case of the partial-block step that writes: the last block gets the leading bytes of
      data after the content's bytes in it. */
  lemma FillLastWrites(s: FsState, ino: nat, content: seq<byte>, data: seq<byte>)
    requires Stored(s, ino, content) && |content| % BlockSize != 0
    ensures FillLast(s, ino, |content|, data).Ok?
    ensures var (s1, n) := FillLast(s, ino, |content|, data).value;
      && n == Min(|data|, Room(|content|))
      && Stored(s1, ino, content + data[..n])
      && s1.inodes == s.inodes && s1.blockBitmap == s.blockBitmap && s1.inodeBitmap == s.inodeBitmap
  {
    var blocks := s.inodes[ino].blocks;
    var b := BlocksFor(|content|);
    var inner := |content| % BlockSize;
    LastSlotStored(s, ino, content);
    PartialBlock(|content|);
    var bn := blocks[b - 1];
    var n := Min(|data|, BlockSize - inner);
    var nb := Overwrite(s.disk[bn], inner, data[..n]);
    assert FillLast(s, ino, |content|, data) == Ok((s.(disk := s.disk[bn := nb]), n));
    StoredExtendLast(s, ino, content, nb, data[..n]);
  }

  /** A length that is not a whole number of blocks ends inside its last block. */
  lemma PartialBlock(m: nat)
    requires m % BlockSize != 0
    ensures BlocksFor(m) > 0 && m % BlockSize == m - BlockSize * (BlocksFor(m) - 1)
    ensures Room(m) == BlockSize - m % BlockSize
  {
  }

  /** Putting a fresh block holding chunk into the next slot of a stored file whose last block
      is full stores content + chunk. */
  lemma StoredAppendBlock(s: FsState, t: FsState, ino: nat, content: seq<byte>, nb: uint32, block: Block, chunk: seq<byte>)
    requires Stored(s, ino, content) && |content| % BlockSize == 0 && BlocksFor(|content|) < BlocksPerInode
    requires Shaped(t) && t.dataBlocks == s.dataBlocks && |t.blockBitmap| == |s.blockBitmap|
    requires 0 < nb < s.dataBlocks && !BlockUsed(s, nb) && BlockUsed(t, nb)
    requires forall x :: 0 <= x < |s.blockBitmap| * 8 && BlockUsed(s, x) ==> BlockUsed(t, x)
    requires t.inodes[ino] == s.inodes[ino].(blocks := s.inodes[ino].blocks[BlocksFor(|content|) := nb])
    requires t.disk == s.disk[nb := block] && 0 < |chunk| <= BlockSize && block[..|chunk|] == chunk
    ensures Stored(t, ino, content + chunk)
  {
    AppendBlockCount(|content|, |chunk|);
    AppendLaid(s, t, ino, BlocksFor(|content|), BlocksFor(|content + chunk|), nb);
    AppendData(s, t, ino, content, nb, block, chunk);
  }

  /** A whole number of blocks followed by at most a block takes one block more. */
  lemma AppendBlockCount(n: nat, m: nat)
    requires n % BlockSize == 0 && 0 < m <= BlockSize
    ensures n == BlockSize * BlocksFor(n) && BlocksFor(n + m) == BlocksFor(n) + 1
  {
  }

  /** A used block put into the slot after the b blocks of a file that did not use it makes
      the shape of a file of b + 1 blocks. */
  lemma AppendLaid(s: FsState, t: FsState, ino: nat, b: nat, b2: nat, nb: uint32)
    requires Laid(s, ino, b) && b < BlocksPerInode && b2 == b + 1
    requires Shaped(t) && t.dataBlocks == s.dataBlocks && |t.blockBitmap| == |s.blockBitmap|
    requires 0 < nb < s.dataBlocks && !BlockUsed(s, nb) && BlockUsed(t, nb)
    requires forall x :: 0 <= x < |s.blockBitmap| * 8 && BlockUsed(s, x) ==> BlockUsed(t, x)
    requires t.inodes[ino] == s.inodes[ino].(blocks := s.inodes[ino].blocks[b := nb])
    ensures Laid(t, ino, b2)
  {
    var blocks := s.inodes[ino].blocks;
    forall k | 0 <= k < b
      ensures blocks[k] != nb
    {
      assert BlockUsed(s, blocks[k]);
    }
  }

  /** The bytes of the b + 1 blocks after the append begin with the content and then chunk. */
  lemma AppendData(s: FsState, t: FsState, ino: nat, content: seq<byte>, nb: uint32, block: Block, chunk: seq<byte>)
    requires Stored(s, ino, content) && BlocksFor(|content|) < BlocksPerInode
    requires |content| == BlockSize * BlocksFor(|content|) && BlocksFor(|content| + |chunk|) == BlocksFor(|content|) + 1
    requires Shaped(t) && t.dataBlocks == s.dataBlocks && 0 < nb < s.dataBlocks && !BlockUsed(s, nb)
    requires t.inodes[ino] == s.inodes[ino].(blocks := s.inodes[ino].blocks[BlocksFor(|content|) := nb])
    requires t.disk == s.disk[nb := block] && |chunk| <= BlockSize && block[..|chunk|] == chunk
    ensures content + chunk == Data(t, t.inodes[ino].blocks[..BlocksFor(|content + chunk|)])[..|content + chunk|]
  {
    var blocks := s.inodes[ino].blocks;
    var b := BlocksFor(|content|);
    var pre := blocks[..b];
    var after := t.inodes[ino].blocks[..BlocksFor(|content + chunk|)];
    assert after == pre + [nb];
    forall k | 0 <= k < b
      ensures pre[k] != nb
    {
      assert BlockUsed(s, blocks[k]);
    }
    DataSnoc(t, pre, nb);
    DataFrame(s, t, pre);
    WholePrefix(Data(s, pre), content);
    PrefixThenChunk(Data(s, pre), block, chunk);
  }

  /** Cutting a sequence at its own length gives it back. */
  lemma WholePrefix(d: seq<byte>, content: seq<byte>)
    requires |d| == |content| && content == d[..|content|]
    ensures content == d
  {
  }

  lemma PrefixThenChunk(d: seq<byte>, block: seq<byte>, chunk: seq<byte>)
    requires |chunk| <= |block| && block[..|chunk|] == chunk
    ensures (d + block)[..|d + chunk|] == d + chunk
  {
    assert (d + block)[..|d + chunk|] == d + block[..|chunk|];
  }

  /** One round of the chunk loop on a stored file whose last block is full puts the chunk in
      a new block in the next slot. */
  lemma PlaceChunkStored(s: FsState, ino: nat, content: seq<byte>, chunk: seq<byte>)
    requires Stored(s, ino, content) && |content| % BlockSize == 0
    requires BlocksFor(|content|) < BlocksPerInode && 0 < |chunk| <= BlockSize
    requires ZeroReserved(s)
    ensures var r := PlaceChunk(s, ino, chunk);
      r.Continue? ==>
        && r.next == ino && Stored(r.state, ino, content + chunk) && ZeroReserved(r.state)
        && r.state.inodes[ino] == s.inodes[ino].(blocks := r.state.inodes[ino].blocks)
  {
    var blocks := s.inodes[ino].blocks;
    var b := BlocksFor(|content|);
    assert FirstZeroSlot(blocks, 0) == Some(b) by {
      assert blocks[b] == 0;
      assert forall k :: 0 <= k < b ==> blocks[k] != 0;
    }
    var (s2, nb) := AllocateBlock(s);
    if nb >= 0 {
      assert nb != 0;
      var s3 := SetInode(s2, ino, s2.inodes[ino].(blocks := s2.inodes[ino].blocks[b := nb]));
      var padded := chunk + Zeros(BlockSize - |chunk|);
      var s4 := s3.(disk := s3.disk[nb := padded]);
      assert PlaceChunk(s, ino, chunk) == Directory.Continue(s4, ino);
      assert forall k :: 0 <= k < |s.blockBitmap| * 8 ==> BlockUsed(s4, k) == BlockUsed(s2, k);
      StoredAppendBlock(s, s4, ino, content, nb, padded, chunk);
    }
  }

  /** The last round of the chunk loop, with at most a block of data left. */
  lemma WriteLastChunk(s: FsState, ino: nat, content: seq<byte>, data: seq<byte>)
    requires Stored(s, ino, content) && |content| % BlockSize == 0
    requires 0 < |data| <= BlockSize && |content| + |data| <= InodeCapacity && ZeroReserved(s)
    ensures var (t, out) := WriteChunks(s, ino, data);
      out == Success ==>
        && Stored(t, ino, content + data) && ZeroReserved(t)
        && t.inodes[ino] == s.inodes[ino].(blocks := t.inodes[ino].blocks)
  {
    assert data[..|data|] == data;
    PlaceChunkStored(s, ino, content, data);
    var r := PlaceChunk(s, ino, data);
    if r.Continue? {
      assert data[|data|..] == [];
      assert WriteChunks(s, ino, data) == (r.state, Success);
    }
  }

  /** A whole number of blocks plus one block is a whole number of blocks. */
  lemma FullBlocksStep(n: nat)
    requires n % BlockSize == 0
    ensures (n + BlockSize) % BlockSize == 0
  {
  }

  /** A round of the chunk loop with more than a block of data left: when the loop succeeds,
      it went on from a state u holding one more block, c2, with the rest of the data to go. */
  lemma WriteFullChunk(s: FsState, ino: nat, content: seq<byte>, data: seq<byte>) returns (u: FsState, c2: seq<byte>, rest: seq<byte>)
    requires Stored(s, ino, content) && |content| % BlockSize == 0
    requires BlockSize < |data| && |content| + |data| <= InodeCapacity && ZeroReserved(s)
    ensures |c2| % BlockSize == 0 && |c2| + |rest| == |content| + |data| && |rest| < |data|
    ensures c2 + rest == content + data
    ensures WriteChunks(s, ino, data).1 == Success ==>
      && Shaped(u) && WriteChunks(s, ino, data) == WriteChunks(u, ino, rest)
      && Stored(u, ino, c2) && ZeroReserved(u)
      && u.inodes[ino] == s.inodes[ino].(blocks := u.inodes[ino].blocks)
  {
    PlaceChunkStored(s, ino, content, data[..BlockSize]);
    u := PlaceChunk(s, ino, data[..BlockSize]).state;
    c2, rest := content + data[..BlockSize], data[BlockSize..];
    FullBlocksStep(|content|);
    SplitJoin(content, data, BlockSize);
  }

  /** The chunk loop over a stored file whose last block is full: when it succeeds the inode
      holds the content followed by data. */
  lemma {:induction false} WriteChunksStored(s: FsState, ino: nat, content: seq<byte>, data: seq<byte>)
    requires Stored(s, ino, content) && |content| % BlockSize == 0
    requires |content| + |data| <= InodeCapacity && ZeroReserved(s)
    ensures var (t, out) := WriteChunks(s, ino, data);
      out == Success ==>
        && Stored(t, ino, content + data)
        && t.inodes[ino] == s.inodes[ino].(blocks := t.inodes[ino].blocks)
    decreases |data|
  {
    if |data| == 0 {
      assert content + data == content;
    } else if |data| <= BlockSize {
      WriteLastChunk(s, ino, content, data);
    } else {
      var u, c2, rest := WriteFullChunk(s, ino, content, data);
      if WriteChunks(s, ino, data).1 == Success {
        WriteChunksStored(u, ino, c2, rest);
      }
    }
  }

  /** Storage without regard to size or times: changing only those fields of the inode keeps
      what it stores. */
  lemma StoredRetimed(s: FsState, ino: nat, content: seq<byte>, node: Inode)
    requires Stored(s, ino, content)
    requires node.blocks == s.inodes[ino].blocks && node.nextInode == 0
    ensures Stored(SetInode(s, ino, node), ino, content)
  {
    var t := SetInode(s, ino, node);
    var bl := node.blocks[..BlocksFor(|content|)];
    assert forall x :: 0 <= x < |s.blockBitmap| * 8 ==> BlockUsed(t, x) == BlockUsed(s, x);
    DataFrame(s, t, bl);
  }

  /** The two stages of the append on a file held in one inode: the partial last block is
      filled, then whole chunks follow; when both succeed the inode stores content + data and
      only its blocks changed. */
  lemma FillThenChunks(s: FsState, ino: nat, content: seq<byte>, data: seq<byte>)
    requires Stored(s, ino, content) && |content| + |data| <= InodeCapacity && ZeroReserved(s)
    ensures FillLast(s, ino, |content|, data).Ok?
    ensures var (s1, n) := FillLast(s, ino, |content|, data).value;
      var (s2, out) := WriteChunks(s1, ino, data[n..]);
      out == Success ==>
        && Stored(s2, ino, content + data)
        && s2.inodes[ino] == s.inodes[ino].(blocks := s2.inodes[ino].blocks)
  {
    FillLastStored(s, ino, content, data);
    var (s1, n) := FillLast(s, ino, |content|, data).value;
    var c1 := content + data[..n];
    if n == |data| {
      assert data[n..] == [] && c1 == content + data;
    } else {
      RoomFills(|content|);
      WriteChunksStored(s1, ino, c1, data[n..]);
      SplitJoin(content, data, n);
    }
  }

  /** The last step of the append: the head's size and modification time are set. */
  lemma SizeSet(s: FsState, s2: FsState, ino: nat, content: seq<byte>, data: seq<byte>, now: int)
    requires Holds(s, ino, content) && |content| + |data| <= InodeCapacity
    requires Stored(s2, ino, content + data) && s2.inodes[ino] == s.inodes[ino].(blocks := s2.inodes[ino].blocks)
    ensures var t := SetInode(s2, ino, s2.inodes[ino].(size := Wrap32(s.inodes[ino].size + |data|), modified := now));
      && Holds(t, ino, content + data)
      && t.inodes[ino] == s.inodes[ino].(blocks := t.inodes[ino].blocks, size := |content| + |data|, modified := now)
  {
    var node := s2.inodes[ino].(size := Wrap32(s.inodes[ino].size + |data|), modified := now);
    assert Wrap32(s.inodes[ino].size + |data|) == |content| + |data|;
    StoredRetimed(s2, ino, content + data, node);
  }

  /** addContentToInode on a head that ends its own chain and that it is allowed to write
      appends at the head itself. */
  lemma AddContentOnHead(s: FsState, ino: nat, data: seq<byte>, uid: uint32, now: int)
    requires Shaped(s) && ino < MaxInodes && LastInChain(s, ino, Directory.ChainFuel) == Ok(ino)
    requires HasPermission(s.inodes[ino].permissions, s.inodes[ino].ownerUid, uid, PermWrite) != 0
    ensures AddContent(s, ino, data, uid, now) == Append(s, ino, ino, data, now)
  {
  }

  /** addContentToInode on a file held in one inode: when it succeeds and the result still fits
      in the inode, the file holds the old content followed by data, and only the head's blocks,
      size and modification time change. */
  lemma AppendHeld(s: FsState, ino: nat, content: seq<byte>, data: seq<byte>, uid: uint32, now: int)
    requires Holds(s, ino, content) && |content| + |data| <= InodeCapacity && ZeroReserved(s)
    ensures AddContent(s, ino, data, uid, now).1 == Success ==>
      var t := AddContent(s, ino, data, uid, now).0;
      && Holds(t, ino, content + data)
      && t.inodes[ino] == s.inodes[ino].(blocks := t.inodes[ino].blocks, size := |content| + |data|, modified := now)
  {
    var h := s.inodes[ino];
    if HasPermission(h.permissions, h.ownerUid, uid, PermWrite) != 0 {
      assert LastInChain(s, ino, Directory.ChainFuel) == Ok(ino);
      FillThenChunks(s, ino, content, data);
      var f := FillLast(s, ino, h.size, data).value;
      var w := WriteChunks(f.0, ino, data[f.1..]);
      if w.1 == Success {
        SizeSet(s, w.0, ino, content, data, now);
        AddContentOnHead(s, ino, data, uid, now);
      } else {
        AddContentOnHead(s, ino, data, uid, now);
      }
    }
  }

  /** Append then read: after a successful append to a file held in one inode, reading it back
      gives the old content followed by the appended bytes. */
  lemma AppendThenRead(s: FsState, ino: nat, content: seq<byte>, data: seq<byte>, uid: uint32, now: int,
                       capacity: nat, reader: uint32)
    requires Holds(s, ino, content) && |content| + |data| <= InodeCapacity && ZeroReserved(s)
    requires s.inodes[ino].kind != Symlink
    requires HasPermission(s.inodes[ino].permissions, s.inodes[ino].ownerUid, reader, PermRead) != 0
    requires capacity > |content| + |data|
    requires AddContent(s, ino, data, uid, now).1 == Success
    ensures ReadContent(AddContent(s, ino, data, uid, now).0, ino, capacity, reader) == Ok(content + data)
  {
    AppendHeld(s, ino, content, data, uid, now);
    ReadHeld(AddContent(s, ino, data, uid, now).0, ino, content + data, capacity, reader);
  }
}
