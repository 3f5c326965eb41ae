/** The directory engine of fs_operations.c:6-231 run in place on the object of filesystem.dfy:
    the loops over the chain of directory inodes, over their block slots and over the entries
    of a block read into a buffer.  Each method is proved to compute what the function of the
    same name in Directory computes. */
module DirOps {
  import opened FsTypes
  import opened DirEntry
  import opened Store
  import opened FileSystem
  import Dir = Directory

  // ---------------------------------------------------------------- dirFindEntry

  /** The test of dirFindEntry on entry j of a block: the name compares equal under strcmp and
      the target's type is accepted by t. */
  function Matches(fs: Fs, b: Block, j: nat, name: seq<byte>, t: InodeType): (m: bool)
    requires fs.Valid() && j < EntriesPerBlock
    reads fs, fs.blockBitmap, fs.inodeBitmap, fs.inodes
    ensures m == Dir.Matches(fs.State(), b, j, name, t)
  {
    var index := EntryIndex(b, j);
    EntryName(b, j) == name && index < MaxInodes
    && (fs.InodeAt(index).kind == t || t == Symlink || t == AnyType)
  }

  /** The entry loop of dirFindEntry over a block read into the buffer. */
  method FindInBlock(fs: Fs, b: Block, name: seq<byte>, t: InodeType) returns (r: Option<nat>)
    requires fs.Valid()
    ensures r == Dir.FindInBlock(fs.State(), b, name, t, 0)
  {
    var j := 0;
    while j < EntriesPerBlock
      invariant 0 <= j <= EntriesPerBlock
      invariant Dir.FindInBlock(fs.State(), b, name, t, j) == Dir.FindInBlock(fs.State(), b, name, t, 0)
    {
      Dir.FindInBlockAt(fs.State(), b, name, t, j, j + 1);
      if Matches(fs, b, j, name, t) {
        return Some(j);
      }
      j := j + 1;
    }
    return None;
  }

  /** The slot loop of dirFindEntry over the block slots of inode cur. */
  method FindInSlots(fs: Fs, cur: nat, name: seq<byte>, t: InodeType) returns (r: Result<Option<nat>>)
    requires fs.Valid() && cur < MaxInodes
    ensures r == Dir.FindInSlots(fs.State(), fs.InodeAt(cur).blocks, name, t)
  {
    ghost var slots := fs.InodeAt(cur).blocks;
    var i := 0;
    while i < BlocksPerInode
      invariant 0 <= i <= BlocksPerInode
      invariant Dir.FindInSlots(fs.State(), slots[i..], name, t) == Dir.FindInSlots(fs.State(), slots, name, t)
    {
      Dir.FindInSlotsAt(fs.State(), slots, name, t, i, i + 1);
      var bn := fs.InodeAt(cur).blocks[i];
      if bn != 0 {
        var read := fs.ReadBlock(bn);
        if read.Err? {
          return Err(read.error);
        }
        var j := FindInBlock(fs, read.value, name, t);
        if j.Some? {
          return Ok(Some(EntryIndex(read.value, j.value)));
        }
      }
      i := i + 1;
    }
    return Ok(None);
  }

  /** One round of the chain loop of dirFindEntry at inode cur with `fuel` links left: either
      the answer, or the next inode of the chain and the links left after following it. */
  method FindRound(fs: Fs, cur: nat, name: seq<byte>, t: InodeType, fuel: nat)
    returns (done: bool, r: Result<nat>, next: nat, rest: nat)
    requires fs.Valid() && cur < MaxInodes
    ensures done ==> r == Dir.FindInChain(fs.State(), cur, name, t, fuel)
    ensures !done ==> next < MaxInodes && rest < fuel
    ensures !done ==> Dir.FindInChain(fs.State(), next, name, t, rest) == Dir.FindInChain(fs.State(), cur, name, t, fuel)
  {
    var ino := fs.InodeAt(cur);
    if ino.kind != InodeType.Directory {
      return true, Err(NotDirectory), 0, 0;
    }
    var found := FindInSlots(fs, cur, name, t);
    if found.Err? {
      return true, Err(found.error), 0, 0;
    }
    if found.value.Some? {
      return true, Ok(found.value.value), 0, 0;
    }
    if ino.nextInode == 0 {
      return true, Err(NotFound), 0, 0;
    }
    if ino.nextInode >= MaxInodes {
      return true, Err(BadIndex), 0, 0;
    }
    if fuel == 0 {
      return true, Err(Diverges), 0, 0;
    }
    rest := fuel - 1;
    Dir.FindInChainContinues(fs.State(), cur, name, t, fuel, rest);
    return false, Ok(0), ino.nextInode, rest;
  }

  /** The chain loop of dirFindEntry from inode start, stopping at next_inode 0. */
  method FindInChain(fs: Fs, start: nat, name: seq<byte>, t: InodeType, limit: nat) returns (r: Result<nat>)
    requires fs.Valid() && start < MaxInodes
    ensures r == Dir.FindInChain(fs.State(), start, name, t, limit)
  {
    var cur: nat := start;
    var fuel: nat := limit;
    while true
      invariant cur < MaxInodes
      invariant Dir.FindInChain(fs.State(), cur, name, t, fuel) == Dir.FindInChain(fs.State(), start, name, t, limit)
      decreases fuel
    {
      var done, res;
      done, res, cur, fuel := FindRound(fs, cur, name, t, fuel);
      if done {
        return res;
      }
    }
  }

  /** dirFindEntry: the inode named `name` with a type accepted by t in directory dir. */
  method FindEntry(fs: Fs, dir: int, name: seq<byte>, t: InodeType) returns (r: Result<nat>)
    requires fs.Valid()
    ensures r == Dir.FindEntry(fs.State(), dir, name, t)
  {
    if !(0 <= dir < MaxInodes) {
      return Err(BadArgument);
    }
    if |name| >= MaxNameSize {
      return Err(NameTooLong);
    }
    r := FindInChain(fs, dir, name, t, Dir.ChainFuel);
  }

  // ---------------------------------------------------------------- dirAddEntry

  /** The search of dirAddEntry for a free entry (inode_index 0) in a block read into the buffer. */
  method FirstFree(b: Block) returns (r: Option<nat>)
    ensures r == Dir.FirstFree(b, 0)
  {
    var j := 0;
    while j < EntriesPerBlock
      invariant 0 <= j <= EntriesPerBlock
      invariant Dir.FirstFree(b, j) == Dir.FirstFree(b, 0)
    {
      if EntryIndex(b, j) == 0 {
        return Some(j);
      }
      j := j + 1;
    }
    return None;
  }

  /** `if (dir->blocks[i] == 0)`: allocates block slot i of inode cur, records it and writes
      the zeroed buffer to it. */
  method EnsureSlotBlock(fs: Fs, cur: nat, i: nat) returns (r: Result<uint32>)
    requires fs.Valid() && cur < MaxInodes && i < BlocksPerInode
    modifies fs, fs.blockBitmap, fs.inodes
    ensures fs.Valid()
    ensures (fs.State(), r) == Dir.EnsureSlotBlock(old(fs.State()), cur, i)
  {
    var slot := fs.InodeAt(cur).blocks[i];
    if slot != 0 {
      return Ok(slot);
    }
    var nb := fs.AllocateBlock();
    if nb == -1 {
      return Err(OutOfSpace);
    }
    var ino := fs.InodeAt(cur);
    fs.SetInode(cur, ino.(blocks := ino.blocks[i := nb]));
    // nb lies in the data region, so the write succeeds
    var _ := fs.WriteBlock(nb, ZeroBlock);
    return Ok(nb);
  }

  /** Fills entry j of block bn (read into b), writes the block back and grows the size of
      inode cur by one record. */
  method StoreEntry(fs: Fs, cur: nat, bn: uint32, b: Block, j: nat, name: seq<byte>, index: uint32, now: int)
    requires fs.Valid() && cur < MaxInodes && bn < fs.dataBlocks && j < EntriesPerBlock
    modifies fs, fs.inodes
    ensures fs.Valid()
    ensures fs.State() == Dir.StoreEntry(old(fs.State()), cur, bn, b, j, name, index, now)
  {
    // bn lies in the data region, so the write succeeds
    var _ := fs.WriteBlock(bn, PutEntry(b, j, name, index));
    var ino := fs.InodeAt(cur);
    fs.SetInode(cur, ino.(size := Wrap32(ino.size + EntryBytes), modified := now));
  }

  /** The slot loop of dirAddEntry over slots 2..11 of inode cur. */
  method AddInSlots(fs: Fs, cur: nat, name: seq<byte>, index: uint32, now: int) returns (r: Option<Outcome>)
    requires fs.Valid() && cur < MaxInodes
    modifies fs, fs.blockBitmap, fs.inodes
    ensures fs.Valid()
    ensures (fs.State(), r) == Dir.AddInSlots(old(fs.State()), cur, name, index, now, Dir.FirstAddSlot)
  {
    var i := Dir.FirstAddSlot;
    while i < BlocksPerInode
      invariant Dir.FirstAddSlot <= i <= BlocksPerInode && fs.Valid()
      invariant Dir.AddInSlots(fs.State(), cur, name, index, now, i)
        == Dir.AddInSlots(old(fs.State()), cur, name, index, now, Dir.FirstAddSlot)
    {
      var blk := EnsureSlotBlock(fs, cur, i);
      if blk.Err? {
        return Some(Failure(blk.error));
      }
      var read := fs.ReadBlock(blk.value);
      if read.Err? {
        return Some(Failure(read.error));
      }
      var j := FirstFree(read.value);
      if j.Some? {
        StoreEntry(fs, cur, blk.value, read.value, j.value, name, index, now);
        return Some(Success);
      }
      i := i + 1;
    }
    return None;
  }

  /** A full chain grows by a new directory inode with a zeroed blocks[0], linked from cur. */
  method ExtendChain(fs: Fs, cur: nat) returns (r: Outcome)
    requires fs.Valid() && cur < MaxInodes
    modifies fs, fs.blockBitmap, fs.inodeBitmap, fs.inodes
    ensures fs.Valid()
    ensures (fs.State(), r) == Dir.ExtendChain(old(fs.State()), cur)
  {
    var n := fs.AllocateInode();
    if n == -1 {
      return Failure(OutOfInodes);
    }
    fs.SetInode(n, ZeroInode.(kind := InodeType.Directory));
    var nb := fs.AllocateBlock();
    if nb == -1 {
      return Failure(OutOfSpace);
    }
    var ino := fs.InodeAt(n);
    fs.SetInode(n, ino.(blocks := ino.blocks[0 := nb]));
    // nb lies in the data region, so the write succeeds
    var _ := fs.WriteBlock(nb, ZeroBlock);
    var c := fs.InodeAt(cur);
    fs.SetInode(cur, c.(nextInode := n));
    return Success;
  }

  /** The body of the chain loop of dirAddEntry at inode cur, ending the loop (done) or
      moving on to inode next. */
  method AddStep(fs: Fs, cur: nat, name: seq<byte>, index: uint32, now: int)
    returns (done: bool, out: Outcome, next: nat)
    requires fs.Valid() && cur < MaxInodes
    modifies fs, fs.blockBitmap, fs.inodeBitmap, fs.inodes
    ensures fs.Valid()
    ensures fs.State() == Dir.AddStep(old(fs.State()), cur, name, index, now).state
    ensures done == Dir.AddStep(old(fs.State()), cur, name, index, now).Finished?
    ensures done ==> out == Dir.AddStep(old(fs.State()), cur, name, index, now).outcome
    ensures !done ==> next == Dir.AddStep(old(fs.State()), cur, name, index, now).next
  {
    if fs.InodeAt(cur).kind != InodeType.Directory {
      return true, Failure(NotDirectory), 0;
    }
    var placed := AddInSlots(fs, cur, name, index, now);
    if placed.Some? {
      return true, placed.value, 0;
    }
    if fs.InodeAt(cur).nextInode == 0 {
      var extended := ExtendChain(fs, cur);
      if extended.Failure? {
        return true, extended, 0;
      }
    }
    var n := fs.InodeAt(cur).nextInode;
    if n >= MaxInodes {
      return true, Failure(BadIndex), 0;
    }
    return false, Success, n;
  }

  /** One round of the chain loop of dirAddEntry with `fuel` links left: the loop ends (done)
      or goes on at inode next with the links left after following it. */
  method AddRound(fs: Fs, cur: nat, name: seq<byte>, index: uint32, now: int, fuel: nat)
    returns (done: bool, out: Outcome, next: nat, rest: nat)
    requires fs.Valid() && cur < MaxInodes
    modifies fs, fs.blockBitmap, fs.inodeBitmap, fs.inodes
    ensures fs.Valid()
    ensures done ==> (fs.State(), out) == Dir.AddInChain(old(fs.State()), cur, name, index, now, fuel)
    ensures !done ==> next < MaxInodes && rest < fuel
    ensures !done ==>
              Dir.AddInChain(fs.State(), next, name, index, now, rest)
              == Dir.AddInChain(old(fs.State()), cur, name, index, now, fuel)
  {
    ghost var before := fs.State();
    done, out, next := AddStep(fs, cur, name, index, now);
    if done {
      Dir.AddInChainFinished(before, cur, name, index, now, fuel);
      return done, out, next, 0;
    }
    if fuel == 0 {
      Dir.AddInChainGivesUp(before, cur, name, index, now);
      return true, Failure(Diverges), 0, 0;
    }
    rest := fuel - 1;
    ghost var t, nx, f := Dir.AddInChainNext(before, cur, name, index, now, fuel);
    assert t == fs.State() && nx == next && f == rest;
  }

  /** The chain loop of dirAddEntry from inode start. */
  method AddInChain(fs: Fs, start: nat, name: seq<byte>, index: uint32, now: int, limit: nat) returns (r: Outcome)
    requires fs.Valid() && start < MaxInodes
    modifies fs, fs.blockBitmap, fs.inodeBitmap, fs.inodes
    ensures fs.Valid()
    ensures (fs.State(), r) == Dir.AddInChain(old(fs.State()), start, name, index, now, limit)
  {
    var cur: nat := start;
    var fuel: nat := limit;
    while true
      invariant cur < MaxInodes && fs.Valid()
      invariant Dir.AddInChain(fs.State(), cur, name, index, now, fuel)
        == Dir.AddInChain(old(fs.State()), start, name, index, now, limit)
      decreases fuel
    {
      var done, out;
      done, out, cur, fuel := AddRound(fs, cur, name, index, now, fuel);
      if done {
        return out;
      }
    }
  }

  /** dirAddEntry: refuses a name already present under type t, and otherwise stores
      (name, index) in the first free entry of the chain of dir. */
  method AddEntry(fs: Fs, dir: int, name: seq<byte>, t: InodeType, index: uint32, now: int) returns (r: Outcome)
    requires fs.Valid()
    modifies fs, fs.blockBitmap, fs.inodeBitmap, fs.inodes
    ensures fs.Valid()
    ensures (fs.State(), r) == Dir.AddEntry(old(fs.State()), dir, name, t, index, now)
  {
    if !(0 <= dir < MaxInodes) {
      return Failure(BadArgument);
    }
    var found := FindEntry(fs, dir, name, t);
    if found.Ok? {
      return Failure(AlreadyExists);
    }
    r := AddInChain(fs, dir, name, index, now, Dir.ChainFuel);
  }

  // ---------------------------------------------------------------- dirRemoveEntry

  /** The entry loop of dirRemoveEntry: the first used entry called `name`. */
  method FirstNamed(b: Block, name: seq<byte>) returns (r: Option<nat>)
    ensures r == Dir.FirstNamed(b, name, 0)
  {
    var j := 0;
    while j < EntriesPerBlock
      invariant 0 <= j <= EntriesPerBlock
      invariant Dir.FirstNamed(b, name, j) == Dir.FirstNamed(b, name, 0)
    {
      if EntryIndex(b, j) != 0 && EntryName(b, j) == name {
        return Some(j);
      }
      j := j + 1;
    }
    return None;
  }

  /** The release of the entry's target: each listed block is freed and its slot zeroed, then
      freeInode releases the target and its chain. */
  method ReleaseTarget(fs: Fs, target: nat) returns (diverged: bool)
    requires fs.Valid() && target < MaxInodes
    modifies fs.blockBitmap, fs.inodeBitmap, fs.inodes
    ensures fs.Valid()
    ensures diverged == Dir.ReleaseTarget(old(fs.State()), target).Err?
    ensures !diverged ==> fs.State() == Dir.ReleaseTarget(old(fs.State()), target).value
  {
    fs.FreeSlots(target);
    var ino := fs.InodeAt(target);
    fs.SetInode(target, ino.(blocks := NoBlocks));
    diverged := fs.FreeInode(target, Dir.ChainFuel);
  }

  /** Entry j of block bn (read into b) is cleared and written back, its target released and
      the size of the head inode shrunk by one record. */
  method RemoveAt(fs: Fs, head: nat, bn: uint32, b: Block, j: nat, now: int) returns (r: Outcome)
    requires fs.Valid() && head < MaxInodes && j < EntriesPerBlock
    modifies fs, fs.blockBitmap, fs.inodeBitmap, fs.inodes
    ensures fs.Valid()
    ensures r == Dir.RemoveAt(old(fs.State()), head, bn, b, j, now).1
    ensures r != Failure(Diverges) ==> fs.State() == Dir.RemoveAt(old(fs.State()), head, bn, b, j, now).0
  {
    var target := EntryIndex(b, j);
    var written := fs.WriteBlock(bn, ClearEntry(b, j));
    if written.Failure? {
      return written;
    }
    r := Unlink(fs, head, target, now);
  }

  /** The release of the target and the shrinking of the head after the write-back. */
  method Unlink(fs: Fs, head: nat, target: uint32, now: int) returns (r: Outcome)
    requires fs.Valid() && head < MaxInodes
    modifies fs.blockBitmap, fs.inodeBitmap, fs.inodes
    ensures fs.Valid()
    ensures r == Dir.Unlink(old(fs.State()), head, target, now).1
    ensures r != Failure(Diverges) ==> fs.State() == Dir.Unlink(old(fs.State()), head, target, now).0
  {
    if target >= MaxInodes {
      return Failure(BadIndex);
    }
    var diverged := ReleaseTarget(fs, target);
    if diverged {
      return Failure(Diverges);
    }
    var h := fs.InodeAt(head);
    fs.SetInode(head, h.(size := Wrap32(h.size - EntryBytes), modified := now));
    return Success;
  }

  /** The slot loop of dirRemoveEntry over the block slots of inode cur; nothing changes
      until the entry is found. */
  method RemoveInSlots(fs: Fs, head: nat, cur: nat, name: seq<byte>, now: int) returns (r: Option<Outcome>)
    requires fs.Valid() && head < MaxInodes && cur < MaxInodes
    modifies fs, fs.blockBitmap, fs.inodeBitmap, fs.inodes
    ensures fs.Valid()
    ensures r == Dir.RemoveInSlots(old(fs.State()), head, old(fs.State()).inodes[cur].blocks, name, now).1
    ensures r != Some(Failure(Diverges)) ==>
              fs.State() == Dir.RemoveInSlots(old(fs.State()), head, old(fs.State()).inodes[cur].blocks, name, now).0
  {
    ghost var slots := fs.InodeAt(cur).blocks;
    var i := 0;
    while i < BlocksPerInode
      invariant 0 <= i <= BlocksPerInode
      invariant fs.State() == old(fs.State())
      invariant Dir.RemoveInSlots(fs.State(), head, slots[i..], name, now) == Dir.RemoveInSlots(fs.State(), head, slots, name, now)
    {
      Dir.RemoveInSlotsAt(fs.State(), head, slots, name, now, i, i + 1);
      var bn := fs.InodeAt(cur).blocks[i];
      if bn != 0 {
        var read := fs.ReadBlock(bn);
        if read.Err? {
          return Some(Failure(read.error));
        }
        var j := FirstNamed(read.value, name);
        if j.Some? {
          var out := RemoveAt(fs, head, bn, read.value, j.value, now);
          return Some(out);
        }
      }
      i := i + 1;
    }
    return None;
  }

  /** The body of the chain loop of dirRemoveEntry at inode cur, ending the loop (done) or
      moving on to inode next. */
  method RemoveStep(fs: Fs, head: nat, cur: nat, name: seq<byte>, now: int)
    returns (done: bool, out: Outcome, next: nat)
    requires fs.Valid() && head < MaxInodes && cur < MaxInodes
    modifies fs, fs.blockBitmap, fs.inodeBitmap, fs.inodes
    ensures fs.Valid()
    ensures !(done && out == Failure(Diverges)) ==> fs.State() == Dir.RemoveStep(old(fs.State()), head, cur, name, now).state
    ensures done == Dir.RemoveStep(old(fs.State()), head, cur, name, now).Finished?
    ensures done ==> out == Dir.RemoveStep(old(fs.State()), head, cur, name, now).outcome
    ensures !done ==> next == Dir.RemoveStep(old(fs.State()), head, cur, name, now).next
  {
    if fs.InodeAt(cur).kind != InodeType.Directory {
      return true, Failure(NotDirectory), 0;
    }
    var removed := RemoveInSlots(fs, head, cur, name, now);
    if removed.Some? {
      return true, removed.value, 0;
    }
    var n := fs.InodeAt(cur).nextInode;
    if n >= MaxInodes {
      return true, Failure(BadIndex), 0;
    }
    return false, Success, n;
  }

  /** One round of the chain loop of dirRemoveEntry with `fuel` links left. */
  method RemoveRound(fs: Fs, head: nat, cur: nat, name: seq<byte>, now: int, fuel: nat)
    returns (done: bool, out: Outcome, next: nat, rest: nat)
    requires fs.Valid() && head < MaxInodes && cur < MaxInodes
    modifies fs, fs.blockBitmap, fs.inodeBitmap, fs.inodes
    ensures fs.Valid()
    ensures done ==> out == Dir.RemoveInChain(old(fs.State()), head, cur, name, now, fuel).1
    ensures done && out != Failure(Diverges) ==> fs.State() == Dir.RemoveInChain(old(fs.State()), head, cur, name, now, fuel).0
    ensures !done ==> next < MaxInodes && rest < fuel
    ensures !done ==>
              Dir.RemoveInChain(fs.State(), head, next, name, now, rest)
              == Dir.RemoveInChain(old(fs.State()), head, cur, name, now, fuel)
  {
    ghost var before := fs.State();
    done, out, next := RemoveStep(fs, head, cur, name, now);
    if done {
      Dir.RemoveInChainFinished(before, head, cur, name, now, fuel);
      return done, out, next, 0;
    }
    if fuel == 0 {
      Dir.RemoveInChainGivesUp(before, head, cur, name, now);
      return true, Failure(Diverges), 0, 0;
    }
    rest := fuel - 1;
    ghost var t, nx, f := Dir.RemoveInChainNext(before, head, cur, name, now, fuel);
    assert t == before && nx == next && f == rest;
  }

  /** The chain loop of dirRemoveEntry from inode start. */
  method RemoveInChain(fs: Fs, head: nat, start: nat, name: seq<byte>, now: int, limit: nat) returns (r: Outcome)
    requires fs.Valid() && head < MaxInodes && start < MaxInodes
    modifies fs, fs.blockBitmap, fs.inodeBitmap, fs.inodes
    ensures fs.Valid()
    ensures r == Dir.RemoveInChain(old(fs.State()), head, start, name, now, limit).1
    ensures r != Failure(Diverges) ==> fs.State() == Dir.RemoveInChain(old(fs.State()), head, start, name, now, limit).0
  {
    var cur: nat := start;
    var fuel: nat := limit;
    while true
      invariant cur < MaxInodes && fs.Valid()
      invariant Dir.RemoveInChain(fs.State(), head, cur, name, now, fuel)
        == Dir.RemoveInChain(old(fs.State()), head, start, name, now, limit)
      decreases fuel
    {
      var done, out;
      done, out, cur, fuel := RemoveRound(fs, head, cur, name, now, fuel);
      if done {
        return out;
      }
    }
  }

  /** dirRemoveEntry: removes the first used entry called `name` from the chain of dir, releases
      its target and shrinks the size of dir. */
  method RemoveEntry(fs: Fs, dir: int, name: seq<byte>, now: int) returns (r: Outcome)
    requires fs.Valid()
    modifies fs, fs.blockBitmap, fs.inodeBitmap, fs.inodes
    ensures fs.Valid()
    ensures r == Dir.RemoveEntry(old(fs.State()), dir, name, now).1
    ensures r != Failure(Diverges) ==> fs.State() == Dir.RemoveEntry(old(fs.State()), dir, name, now).0
  {
    if !(0 <= dir < MaxInodes) {
      return Failure(BadArgument);
    }
    r := RemoveInChain(fs, dir, dir, name, now, Dir.RemoveFuel);
  }
}
