/** The directory engine of fs_operations.c:6-231: a directory is a chain of directory inodes
    linked by next_inode, each listing up to twelve blocks of 14 entries.  Lookups, insertions
    and removals walk that chain; a walk that would go on for ever in the source (a chain that
    returns to an inode already visited) is cut after a fixed number of links with Diverges. */
module Directory {
  import opened FsTypes
  import opened DirEntry
  import opened Store

  /** Links a lookup or an insertion follows before giving up: a chain of distinct inodes
      has fewer than MAX_INODES links. */
  const ChainFuel: nat := MaxInodes

  /** Links a removal follows: it walks the directory's chain and then, through next_inode 0,
      the root's. */
  const RemoveFuel: nat := 2 * MaxInodes

  /** First block slot dirAddEntry fills (slots 0 and 1 are never used by it). */
  const FirstAddSlot: nat := 2

  /** The entry's target has the requested type; FILE_SYMLINK and FILE_ANY accept any type.  An
      index outside the inode table never matches (the source would read past the table). */
  predicate TypeMatches(s: FsState, index: uint32, t: InodeType)
    requires Shaped(s)
  {
    index < MaxInodes && (s.inodes[index].kind == t || t == Symlink || t == AnyType)
  }

  predicate Matches(s: FsState, b: Block, j: nat, name: seq<byte>, t: InodeType)
    requires Shaped(s) && j < EntriesPerBlock
  {
    EntryName(b, j) == name && TypeMatches(s, EntryIndex(b, j), t)
  }

  /** The two states have the same dimensions; their contents may differ. */
  predicate SameShape(s: FsState, t: FsState) {
    Shaped(t) && t.dataBlocks == s.dataBlocks
    && |t.blockBitmap| == |s.blockBitmap| && |t.inodeBitmap| == |s.inodeBitmap|
  }

  // ---------------------------------------------------------------- dirFindEntry

  /** The entry loop of dirFindEntry over positions j..13 of one block: the first matching
      position. */
  function FindInBlock(s: FsState, b: Block, name: seq<byte>, t: InodeType, j: nat): (r: Option<nat>)
    requires Shaped(s) && j <= EntriesPerBlock
    ensures r.Some? ==> j <= r.value < EntriesPerBlock && Matches(s, b, r.value, name, t)
    decreases EntriesPerBlock - j
  {
    if j == EntriesPerBlock then None
    else if Matches(s, b, j, name, t) then Some(j)
    else FindInBlock(s, b, name, t, j + 1)
  }

  /** The entry loop passes over no match: every position from j up to the one it returns, or
      up to the end of the block when it returns none, fails to match. */
  lemma {:induction false} FindInBlockSkips(s: FsState, b: Block, name: seq<byte>, t: InodeType, j: nat)
    requires Shaped(s) && j <= EntriesPerBlock
    ensures FindInBlock(s, b, name, t, j).Some? ==>
      forall k :: j <= k < FindInBlock(s, b, name, t, j).value ==> !Matches(s, b, k, name, t)
    ensures FindInBlock(s, b, name, t, j).None? ==> forall k :: j <= k < EntriesPerBlock ==> !Matches(s, b, k, name, t)
    decreases EntriesPerBlock - j
  {
    if j < EntriesPerBlock && !Matches(s, b, j, name, t) {
      FindInBlockSkips(s, b, name, t, j + 1);
    }
  }

  /** One position of the entry loop: a match ends it, anything else passes on to position k. */
  lemma FindInBlockAt(s: FsState, b: Block, name: seq<byte>, t: InodeType, j: nat, k: nat)
    requires Shaped(s) && j < EntriesPerBlock && k == j + 1
    ensures Matches(s, b, j, name, t) ==> FindInBlock(s, b, name, t, j) == Some(j)
    ensures !Matches(s, b, j, name, t) ==> FindInBlock(s, b, name, t, j) == FindInBlock(s, b, name, t, k)
  {}

  /** The slot loop of dirFindEntry over the remaining block numbers of one directory inode:
      Some(index) for the first match, None when no listed block matches. */
  function FindInSlots(s: FsState, slots: seq<uint32>, name: seq<byte>, t: InodeType): (r: Result<Option<nat>>)
    requires Shaped(s)
    ensures r.Ok? && r.value.Some? ==> r.value.value < MaxInodes && TypeMatches(s, r.value.value, t)
    ensures r.Err? ==> r.error == IoError
    decreases |slots|
  {
    if |slots| == 0 then Ok(None)
    else if slots[0] == 0 then FindInSlots(s, slots[1..], name, t)
    else match ReadBlock(s, slots[0])
      case Err(e) => Err(e)
      case Ok(b) =>
        match FindInBlock(s, b, name, t, 0)
        case Some(j) => Ok(Some(EntryIndex(b, j)))
        case None => FindInSlots(s, slots[1..], name, t)
  }

  /** One slot of the slot loop, at position i of slots, with k the position after it. */
  lemma FindInSlotsAt(s: FsState, slots: seq<uint32>, name: seq<byte>, t: InodeType, i: nat, k: nat)
    requires Shaped(s) && i < |slots| && k == i + 1
    ensures slots[i] == 0 ==> FindInSlots(s, slots[i..], name, t) == FindInSlots(s, slots[k..], name, t)
    ensures slots[i] != 0 && ReadBlock(s, slots[i]).Err? ==>
      FindInSlots(s, slots[i..], name, t) == Err(ReadBlock(s, slots[i]).error)
    ensures slots[i] != 0 && ReadBlock(s, slots[i]).Ok? ==>
      var b := ReadBlock(s, slots[i]).value;
      FindInSlots(s, slots[i..], name, t)
        == if FindInBlock(s, b, name, t, 0).Some? then Ok(Some(EntryIndex(b, FindInBlock(s, b, name, t, 0).value)))
           else FindInSlots(s, slots[k..], name, t)
  {
    assert slots[i..][1..] == slots[k..];
  }

  /** The chain loop of dirFindEntry from inode cur, stopping at next_inode 0. */
  function FindInChain(s: FsState, cur: nat, name: seq<byte>, t: InodeType, fuel: nat): (r: Result<nat>)
    requires Shaped(s) && cur < MaxInodes
    ensures r.Ok? ==> r.value < MaxInodes && TypeMatches(s, r.value, t)
    decreases fuel
  {
    if s.inodes[cur].kind != Directory then Err(NotDirectory)
    else match FindInSlots(s, s.inodes[cur].blocks, name, t)
      case Err(e) => Err(e)
      case Ok(Some(x)) => Ok(x)
      case Ok(None) =>
        var next := s.inodes[cur].nextInode;
        if next == 0 then Err(NotFound)
        else if next >= MaxInodes then Err(BadIndex)
        else if fuel == 0 then Err(Diverges)
        else FindInChain(s, next, name, t, fuel - 1)
  }

  /** The search of a directory with a successor: a hit in its own slots, or else the
      successor's search. */
  lemma FindInChainNext(s: FsState, cur: nat, name: seq<byte>, t: InodeType, fuel: nat)
    requires Shaped(s) && cur < MaxInodes && s.inodes[cur].kind == Directory
    requires 0 < s.inodes[cur].nextInode < MaxInodes && fuel > 0
    requires FindInSlots(s, s.inodes[cur].blocks, name, t).Ok?
    ensures var f := FindInSlots(s, s.inodes[cur].blocks, name, t).value;
      FindInChain(s, cur, name, t, fuel)
        == if f.Some? then Ok(f.value) else FindInChain(s, s.inodes[cur].nextInode, name, t, fuel - 1)
  {
  }

  /** A directory inode none of whose blocks holds the name passes the search on to its
      next_inode with one link less (rest). */
  lemma FindInChainContinues(s: FsState, cur: nat, name: seq<byte>, t: InodeType, fuel: nat, rest: nat)
    requires Shaped(s) && cur < MaxInodes && s.inodes[cur].kind == Directory
    requires FindInSlots(s, s.inodes[cur].blocks, name, t) == Ok(None)
    requires 0 < s.inodes[cur].nextInode < MaxInodes && fuel == rest + 1
    ensures FindInChain(s, cur, name, t, fuel) == FindInChain(s, s.inodes[cur].nextInode, name, t, rest)
  {
    FindInChainNext(s, cur, name, t, fuel);
  }

  /** dirFindEntry: the inode named `name` with a type accepted by t in directory dir. */
  function FindEntry(s: FsState, dir: int, name: seq<byte>, t: InodeType): (r: Result<nat>)
    requires Shaped(s)
    ensures !(0 <= dir < MaxInodes) ==> r == Err(BadArgument)
    ensures 0 <= dir < MaxInodes && |name| >= MaxNameSize ==> r == Err(NameTooLong)
    ensures r.Ok? ==> r.value < MaxInodes && TypeMatches(s, r.value, t)
  {
    if !(0 <= dir < MaxInodes) then Err(BadArgument)
    else if |name| >= MaxNameSize then Err(NameTooLong)
    else FindInChain(s, dir, name, t, ChainFuel)
  }

  // ---------------------------------------------------------------- dirAddEntry

  /** The first free entry (inode_index 0) at position j or later. */
  function FirstFree(b: Block, j: nat): (r: Option<nat>)
    requires j <= EntriesPerBlock
    ensures r.Some? ==> j <= r.value < EntriesPerBlock && EntryIndex(b, r.value) == 0
    decreases EntriesPerBlock - j
  {
    if j == EntriesPerBlock then None
    else if EntryIndex(b, j) == 0 then Some(j)
    else FirstFree(b, j + 1)
  }

  /** Every entry FirstFree passes over is occupied. */
  lemma {:induction false} FirstFreeSkips(b: Block, j: nat)
    requires j <= EntriesPerBlock
    ensures FirstFree(b, j).Some? ==> forall k :: j <= k < FirstFree(b, j).value ==> EntryIndex(b, k) != 0
    ensures FirstFree(b, j).None? ==> forall k :: j <= k < EntriesPerBlock ==> EntryIndex(b, k) != 0
    decreases EntriesPerBlock - j
  {
    if j < EntriesPerBlock && EntryIndex(b, j) != 0 {
      FirstFreeSkips(b, j + 1);
    }
  }

  /** Gives block slot i of inode cur a fresh zeroed block when it has none: the block number
      to use, or a failure when no block is free. */
  function EnsureSlotBlock(s: FsState, cur: nat, i: nat): (r: (FsState, Result<uint32>))
    requires Shaped(s) && cur < MaxInodes && i < BlocksPerInode
    ensures SameShape(s, r.0)
    ensures r.1.Ok? ==> r.0.inodes[cur].blocks[i] == r.1.value
    ensures s.inodes[cur].blocks[i] != 0 ==> r == (s, Ok(s.inodes[cur].blocks[i]))
    ensures r.1.Err? ==> r.0 == s && r.1.error == OutOfSpace
    ensures s.inodes[cur].blocks[i] == 0 && r.1.Ok? ==>
      && AllocateBlock(s).1 == r.1.value < s.dataBlocks
      && r.0.blockBitmap == AllocateBlock(s).0.blockBitmap && r.0.inodeBitmap == s.inodeBitmap
      && r.0.disk == s.disk[r.1.value := ZeroBlock]
      && r.0.inodes == s.inodes[cur := s.inodes[cur].(blocks := s.inodes[cur].blocks[i := r.1.value])]
  {
    var slot := s.inodes[cur].blocks[i];
    if slot != 0 then (s, Ok(slot))
    else
      var (s1, nb) := AllocateBlock(s);
      if nb == -1 then (s1, Err(OutOfSpace))
      else
        var ino := s1.inodes[cur];
        var s2 := SetInode(s1, cur, ino.(blocks := ino.blocks[i := nb]));
        // writing a block just allocated cannot fail
        (WriteBlock(s2, nb, ZeroBlock).value, Ok(nb))
  }

  /** A block EnsureSlotBlock has just allocated is zeroed and so has a free entry: a slot
      whose block is full was already there, and nothing changed. */
  lemma FullSlotWasThere(s: FsState, cur: nat, i: nat)
    requires Shaped(s) && cur < MaxInodes && i < BlocksPerInode
    requires EnsureSlotBlock(s, cur, i).1.Ok?
    ensures var (s1, blk) := EnsureSlotBlock(s, cur, i);
      ReadBlock(s1, blk.value).Ok? && FirstFree(ReadBlock(s1, blk.value).value, 0).None? ==> s1 == s
  {
    var (s1, blk) := EnsureSlotBlock(s, cur, i);
    if s.inodes[cur].blocks[i] == 0 {
      ZeroBlockEntries(0);
      assert s1.disk[blk.value] == ZeroBlock;
    }
  }

  /** Writes (name, index) into entry j of block bn (holding b) and grows the size of inode cur,
      the inode that receives the entry, by one record. */
  function StoreEntry(s: FsState, cur: nat, bn: uint32, b: Block, j: nat, name: seq<byte>, index: uint32, now: int): (t: FsState)
    requires Shaped(s) && cur < MaxInodes && bn < s.dataBlocks && j < EntriesPerBlock
    ensures SameShape(s, t)
    ensures t.blockBitmap == s.blockBitmap && t.inodeBitmap == s.inodeBitmap
    ensures t.disk == s.disk[bn := PutEntry(b, j, name, index)]
    ensures t.inodes == s.inodes[cur := s.inodes[cur].(size := Wrap32(s.inodes[cur].size + EntryBytes), modified := now)]
  {
    // the block was just read, so writing it back cannot fail
    var s1 := WriteBlock(s, bn, PutEntry(b, j, name, index)).value;
    var ino := s1.inodes[cur];
    SetInode(s1, cur, ino.(size := Wrap32(ino.size + EntryBytes), modified := now))
  }

  /** The slot loop of dirAddEntry over slots i..11 of inode cur: the entry goes into the first
      free position of the first block that has one; a missing block is allocated and zeroed
      first.  None means every slot is full and nothing changed. */
  function AddInSlots(s: FsState, cur: nat, name: seq<byte>, index: uint32, now: int, i: nat): (r: (FsState, Option<Outcome>))
    requires Shaped(s) && cur < MaxInodes && i <= BlocksPerInode
    ensures SameShape(s, r.0)
    ensures r.1.None? ==> r.0 == s
    ensures r.1.Some? && r.1.value.Failure? ==> r.0 == s
    ensures r.1 != Some(Failure(PermissionDenied))
    decreases BlocksPerInode - i
  {
    if i == BlocksPerInode then (s, None)
    else
      var (s1, blk) := EnsureSlotBlock(s, cur, i);
      match blk
      case Err(e) => (s1, Some(Failure(e)))
      case Ok(bn) =>
        match ReadBlock(s1, bn)
        case Err(e) => (s1, Some(Failure(e)))
        case Ok(b) =>
          match FirstFree(b, 0)
          case None =>
            FullSlotWasThere(s, cur, i);
            AddInSlots(s1, cur, name, index, now, i + 1)
          case Some(j) =>
            (StoreEntry(s1, cur, bn, b, j, name, index, now), Some(Success))
  }

  /** Appends a new directory inode to a full chain at inode cur: allocate it, make it a zeroed
      directory, give it a zeroed blocks[0], and link it from cur. */
  function ExtendChain(s: FsState, cur: nat): (r: (FsState, Outcome))
    requires Shaped(s) && cur < MaxInodes
    ensures SameShape(s, r.0)
    ensures r.1 == Failure(OutOfInodes) || r.1 == Failure(OutOfSpace) || r.1 == Success
    // with no free inode nothing changes; with no free block the new inode stays allocated
    ensures r.1 == Failure(OutOfInodes) ==> r.0 == s
    ensures r.1 == Failure(OutOfSpace) ==> 0 <= AllocateInode(s).1 && InodeUsed(r.0, AllocateInode(s).1)
  {
    var (s1, n) := AllocateInode(s);
    if n == -1 then (s1, Failure(OutOfInodes))
    else
      var s2 := SetInode(s1, n, ZeroInode.(kind := Directory));
      var (s3, nb) := AllocateBlock(s2);
      if nb == -1 then (s3, Failure(OutOfSpace))
      else
        var s4 := SetInode(s3, n, s3.inodes[n].(blocks := s3.inodes[n].blocks[0 := nb]));
        var s5 := WriteBlock(s4, nb, ZeroBlock).value;
        (SetInode(s5, cur, s5.inodes[cur].(nextInode := n)), Success)
  }

  /** One round of a chain loop: either the loop ends with an outcome, or it moves on to
      inode next in the given state. */
  datatype Step = Finished(state: FsState, outcome: Outcome) | Continue(state: FsState, next: nat)

  /** One round of the chain loop of dirAddEntry at inode cur: try its slots 2..11, and when
      they are full move on to next_inode, first appending a new inode if there is none. */
  function AddStep(s: FsState, cur: nat, name: seq<byte>, index: uint32, now: int): (r: Step)
    requires Shaped(s) && cur < MaxInodes
    ensures SameShape(s, r.state)
    ensures r.Continue? ==> r.next < MaxInodes
    ensures r.Finished? ==> r.outcome != Failure(PermissionDenied)
  {
    if s.inodes[cur].kind != Directory then Finished(s, Failure(NotDirectory))
    else
      var (s1, placed) := AddInSlots(s, cur, name, index, now, FirstAddSlot);
      if placed.Some? then Finished(s1, placed.value)
      else
        var (s2, extended) :=
          if s1.inodes[cur].nextInode == 0 then ExtendChain(s1, cur) else (s1, Success);
        if extended.Failure? then Finished(s2, extended)
        else
          var next := s2.inodes[cur].nextInode;
          if next >= MaxInodes then Finished(s2, Failure(BadIndex))
          else Continue(s2, next)
  }

  /** A round that moves on found the directory cur with every slot 2..11 full, changing
      nothing, and follows next_inode, first appending a new inode when it was 0. */
  lemma AddStepMovesOn(s: FsState, cur: nat, name: seq<byte>, index: uint32, now: int)
    requires Shaped(s) && cur < MaxInodes && AddStep(s, cur, name, index, now).Continue?
    ensures s.inodes[cur].kind == Directory && AddInSlots(s, cur, name, index, now, FirstAddSlot) == (s, None)
    ensures s.inodes[cur].nextInode != 0 ==> AddStep(s, cur, name, index, now) == Continue(s, s.inodes[cur].nextInode as nat)
    ensures s.inodes[cur].nextInode == 0 ==>
      && ExtendChain(s, cur).1 == Success
      && AddStep(s, cur, name, index, now) == Continue(ExtendChain(s, cur).0, ExtendChain(s, cur).0.inodes[cur].nextInode as nat)
  {
  }

  /** A round that ends in success placed the entry in a slot of the directory cur. */
  lemma AddStepPlaced(s: FsState, cur: nat, name: seq<byte>, index: uint32, now: int)
    requires Shaped(s) && cur < MaxInodes
    requires AddStep(s, cur, name, index, now) == Finished(AddStep(s, cur, name, index, now).state, Success)
    ensures s.inodes[cur].kind == Directory
    ensures AddInSlots(s, cur, name, index, now, FirstAddSlot) == (AddStep(s, cur, name, index, now).state, Some(Success))
  {
  }

  /** The chain loop of dirAddEntry from inode cur. */
  function AddInChain(s: FsState, cur: nat, name: seq<byte>, index: uint32, now: int, fuel: nat): (r: (FsState, Outcome))
    requires Shaped(s) && cur < MaxInodes
    ensures SameShape(s, r.0)
    ensures r.1 != Failure(PermissionDenied)
    decreases fuel
  {
    match AddStep(s, cur, name, index, now)
    case Finished(t, out) => (t, out)
    case Continue(t, next) =>
      if fuel == 0 then (t, Failure(Diverges))
      else AddInChain(t, next, name, index, now, fuel - 1)
  }

  /** A chain loop whose round finishes ends with that round's state and outcome. */
  lemma AddInChainFinished(s: FsState, cur: nat, name: seq<byte>, index: uint32, now: int, fuel: nat)
    requires Shaped(s) && cur < MaxInodes && AddStep(s, cur, name, index, now).Finished?
    ensures AddInChain(s, cur, name, index, now, fuel)
      == (AddStep(s, cur, name, index, now).state, AddStep(s, cur, name, index, now).outcome)
  {
  }

  /** A chain loop whose round moves on gives up when no link is left. */
  lemma AddInChainGivesUp(s: FsState, cur: nat, name: seq<byte>, index: uint32, now: int)
    requires Shaped(s) && cur < MaxInodes && AddStep(s, cur, name, index, now).Continue?
    ensures AddInChain(s, cur, name, index, now, 0) == (AddStep(s, cur, name, index, now).state, Failure(Diverges))
  {
  }

  /** A chain loop whose round moves on to inode next in state t gives up with no link left,
      and otherwise ends as the loop from there with one link less (f) ends. */
  lemma AddInChainNext(s: FsState, cur: nat, name: seq<byte>, index: uint32, now: int, fuel: nat) returns (t: FsState, next: nat, f: nat)
    requires Shaped(s) && cur < MaxInodes && AddStep(s, cur, name, index, now).Continue?
    ensures t == AddStep(s, cur, name, index, now).state && next == AddStep(s, cur, name, index, now).next
    ensures Shaped(t) && next < MaxInodes
    ensures fuel == 0 ==> AddInChain(s, cur, name, index, now, fuel).1 == Failure(Diverges)
    ensures fuel > 0 ==> f == fuel - 1 && AddInChain(s, cur, name, index, now, fuel) == AddInChain(t, next, name, index, now, f)
  {
    t, next := AddStep(s, cur, name, index, now).state, AddStep(s, cur, name, index, now).next;
    f := if fuel == 0 then 0 else fuel - 1;
  }

  /** dirAddEntry: refuses a name that already resolves under type t in dir, and otherwise
      inserts (name truncated to 31 bytes, index) into the chain. */
  function AddEntry(s: FsState, dir: int, name: seq<byte>, t: InodeType, index: uint32, now: int): (r: (FsState, Outcome))
    requires Shaped(s)
    ensures SameShape(s, r.0)
    ensures !(0 <= dir < MaxInodes) ==> r == (s, Failure(BadArgument))
    ensures FindEntry(s, dir, name, t).Ok? ==> r == (s, Failure(AlreadyExists))
    // the engine never reports a permission failure: callers check permissions themselves
    ensures r.1 != Failure(PermissionDenied)
  {
    if !(0 <= dir < MaxInodes) then (s, Failure(BadArgument))
    else if FindEntry(s, dir, name, t).Ok? then (s, Failure(AlreadyExists))
    else AddInChain(s, dir, name, index, now, ChainFuel)
  }

  // ---------------------------------------------------------------- dirRemoveEntry

  /** The first used entry (inode_index != 0) named `name` at position j or later. */
  function FirstNamed(b: Block, name: seq<byte>, j: nat): (r: Option<nat>)
    requires j <= EntriesPerBlock
    ensures r.Some? ==> j <= r.value < EntriesPerBlock && EntryIndex(b, r.value) != 0 && EntryName(b, r.value) == name
    decreases EntriesPerBlock - j
  {
    if j == EntriesPerBlock then None
    else if EntryIndex(b, j) != 0 && EntryName(b, j) == name then Some(j)
    else FirstNamed(b, name, j + 1)
  }

  /** The search passes over no used entry called name. */
  lemma {:induction false} FirstNamedSkips(b: Block, name: seq<byte>, j: nat)
    requires j <= EntriesPerBlock
    ensures FirstNamed(b, name, j).Some? ==>
      forall k :: j <= k < FirstNamed(b, name, j).value ==> EntryIndex(b, k) == 0 || EntryName(b, k) != name
    ensures FirstNamed(b, name, j).None? ==>
      forall k :: j <= k < EntriesPerBlock ==> EntryIndex(b, k) == 0 || EntryName(b, k) != name
    decreases EntriesPerBlock - j
  {
    if j < EntriesPerBlock && !(EntryIndex(b, j) != 0 && EntryName(b, j) == name) {
      FirstNamedSkips(b, name, j + 1);
    }
  }

  /** What dirRemoveEntry does to the inode an entry named: its listed blocks are freed and its
      slots zeroed, then freeInode releases it and its chain. */
  function ReleaseTarget(s: FsState, target: nat): (r: Result<FsState>)
    requires Shaped(s) && target < MaxInodes
    ensures r.Ok? ==> SameShape(s, r.value)
    ensures r.Err? ==> r.error == Diverges
  {
    var s1 := FreeSlotBlocks(s, s.inodes[target].blocks);
    var s2 := SetInode(s1, target, s1.inodes[target].(blocks := NoBlocks));
    FreeInode(s2, target, ChainFuel)
  }

  /** Clears entry j of block bn (holding b), releases its target and shrinks the head's size. */
  function RemoveAt(s: FsState, head: nat, bn: uint32, b: Block, j: nat, now: int): (r: (FsState, Outcome))
    requires Shaped(s) && head < MaxInodes && j < EntriesPerBlock
    ensures SameShape(s, r.0)
  {
    var target := EntryIndex(b, j);
    match WriteBlock(s, bn, ClearEntry(b, j))
    case Err(e) => (s, Failure(e))
    case Ok(s1) => Unlink(s1, head, target, now)
  }

  /** What follows the write-back of the cleared entry: the target is released and the head's
      size shrinks by one record. */
  function Unlink(s: FsState, head: nat, target: uint32, now: int): (r: (FsState, Outcome))
    requires Shaped(s) && head < MaxInodes
    ensures SameShape(s, r.0)
  {
    if target >= MaxInodes then (s, Failure(BadIndex))
    else match ReleaseTarget(s, target)
      case Err(e) => (s, Failure(e))
      case Ok(s2) =>
        var h := s2.inodes[head];
        (SetInode(s2, head, h.(size := Wrap32(h.size - EntryBytes), modified := now)), Success)
  }

  /** The slot loop of dirRemoveEntry over the remaining block numbers of inode cur. */
  function RemoveInSlots(s: FsState, head: nat, slots: seq<uint32>, name: seq<byte>, now: int): (r: (FsState, Option<Outcome>))
    requires Shaped(s) && head < MaxInodes
    ensures SameShape(s, r.0)
    ensures r.1.None? ==> r.0 == s
    decreases |slots|
  {
    if |slots| == 0 then (s, None)
    else if slots[0] == 0 then RemoveInSlots(s, head, slots[1..], name, now)
    else match ReadBlock(s, slots[0])
      case Err(e) => (s, Some(Failure(e)))
      case Ok(b) =>
        match FirstNamed(b, name, 0)
        case None => RemoveInSlots(s, head, slots[1..], name, now)
        case Some(j) =>
          var (s1, out) := RemoveAt(s, head, slots[0], b, j, now);
          (s1, Some(out))
  }

  /** One slot of the slot loop of dirRemoveEntry, at position i of slots, with k the position
      after it. */
  lemma RemoveInSlotsAt(s: FsState, head: nat, slots: seq<uint32>, name: seq<byte>, now: int, i: nat, k: nat)
    requires Shaped(s) && head < MaxInodes && i < |slots| && k == i + 1
    ensures slots[i] == 0 ==> RemoveInSlots(s, head, slots[i..], name, now) == RemoveInSlots(s, head, slots[k..], name, now)
    ensures slots[i] != 0 && ReadBlock(s, slots[i]).Err? ==>
      RemoveInSlots(s, head, slots[i..], name, now) == (s, Some(Failure(ReadBlock(s, slots[i]).error)))
    ensures slots[i] != 0 && ReadBlock(s, slots[i]).Ok? ==>
      var b := ReadBlock(s, slots[i]).value;
      RemoveInSlots(s, head, slots[i..], name, now)
        == if FirstNamed(b, name, 0).Some? then
             var r := RemoveAt(s, head, slots[i], b, FirstNamed(b, name, 0).value, now); (r.0, Some(r.1))
           else RemoveInSlots(s, head, slots[k..], name, now)
  {
    assert slots[i..][1..] == slots[k..];
  }

  /** One round of the chain loop of dirRemoveEntry at inode cur.  Unlike dirFindEntry it
      moves on to next_inode even when that is 0, i.e. on to the root directory. */
  function RemoveStep(s: FsState, head: nat, cur: nat, name: seq<byte>, now: int): (r: Step)
    requires Shaped(s) && head < MaxInodes && cur < MaxInodes
    ensures SameShape(s, r.state)
    ensures r.Continue? ==> r.state == s && r.next < MaxInodes
  {
    if s.inodes[cur].kind != Directory then Finished(s, Failure(NotDirectory))
    else
      var (s1, removed) := RemoveInSlots(s, head, s.inodes[cur].blocks, name, now);
      if removed.Some? then Finished(s1, removed.value)
      else
        var next := s.inodes[cur].nextInode;
        if next >= MaxInodes then Finished(s, Failure(BadIndex))
        else Continue(s, next)
  }

  /** The chain loop of dirRemoveEntry. */
  function RemoveInChain(s: FsState, head: nat, cur: nat, name: seq<byte>, now: int, fuel: nat): (r: (FsState, Outcome))
    requires Shaped(s) && head < MaxInodes && cur < MaxInodes
    ensures SameShape(s, r.0)
    decreases fuel
  {
    match RemoveStep(s, head, cur, name, now)
    case Finished(t, out) => (t, out)
    case Continue(t, next) =>
      if fuel == 0 then (t, Failure(Diverges))
      else RemoveInChain(t, head, next, name, now, fuel - 1)
  }

  /** A round of dirRemoveEntry's chain loop that ends the loop ends the walk. */
  lemma RemoveInChainFinished(s: FsState, head: nat, cur: nat, name: seq<byte>, now: int, fuel: nat)
    requires Shaped(s) && head < MaxInodes && cur < MaxInodes && RemoveStep(s, head, cur, name, now).Finished?
    ensures RemoveInChain(s, head, cur, name, now, fuel)
      == (RemoveStep(s, head, cur, name, now).state, RemoveStep(s, head, cur, name, now).outcome)
  {}

  /** With no links left, a round that would go on gives up instead. */
  lemma RemoveInChainGivesUp(s: FsState, head: nat, cur: nat, name: seq<byte>, now: int)
    requires Shaped(s) && head < MaxInodes && cur < MaxInodes && RemoveStep(s, head, cur, name, now).Continue?
    ensures RemoveInChain(s, head, cur, name, now, 0) == (s, Failure(Diverges))
  {}

  /** A removal round that finds nothing leaves the state alone, and the walk gives up with no
      link left or goes on at the next inode of the chain with one link less (f). */
  lemma RemoveInChainNext(s: FsState, head: nat, cur: nat, name: seq<byte>, now: int, fuel: nat) returns (t: FsState, next: nat, f: nat)
    requires Shaped(s) && head < MaxInodes && cur < MaxInodes && RemoveStep(s, head, cur, name, now).Continue?
    ensures t == s && next == RemoveStep(s, head, cur, name, now).next && next < MaxInodes
    ensures fuel == 0 ==> RemoveInChain(s, head, cur, name, now, fuel).1 == Failure(Diverges)
    ensures fuel > 0 ==> f == fuel - 1 && RemoveInChain(s, head, cur, name, now, fuel) == RemoveInChain(t, head, next, name, now, f)
  {
    t, next := RemoveStep(s, head, cur, name, now).state, RemoveStep(s, head, cur, name, now).next;
    f := if fuel == 0 then 0 else fuel - 1;
  }

  /** dirRemoveEntry: removes the first used entry called `name`, whatever the type of its
      target, releases that target and shrinks the size of dir (the head of the chain). */
  function RemoveEntry(s: FsState, dir: int, name: seq<byte>, now: int): (r: (FsState, Outcome))
    requires Shaped(s)
    ensures SameShape(s, r.0)
    ensures !(0 <= dir < MaxInodes) ==> r == (s, Failure(BadArgument))
  {
    if !(0 <= dir < MaxInodes) then (s, Failure(BadArgument))
    else RemoveInChain(s, dir, dir, name, now, RemoveFuel)
  }
}
