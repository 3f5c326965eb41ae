/** Creation and deletion of directories, regular files and symlinks (fs_operations.c:243-287,
    fs_operations.c:349-444, fs_operations.c:602-649), built from the allocators and the
    directory engine.  Each operation first runs its guards, which change nothing, and then a
    sequence of steps whose partial effects the source leaves in place when a later step fails. */
module Lifecycle {
  import opened FsTypes
  import opened DirEntry
  import opened Store
  import opened Permissions
  import opened Directory

  /** The value `-1` stored into the uint32 link_target_index of a file or directory. */
  const NoLink: uint32 := 0xFFFF_FFFF

  predicate Writable(s: FsState, i: nat, uid: uint32)
    requires Shaped(s) && i < MaxInodes
  {
    HasPermission(s.inodes[i].permissions, s.inodes[i].ownerUid, uid, PermWrite) != 0
  }

  /** The record createDirectory and createFile fill in over the zeroed one: the name cut to 31
      bytes, both dates `now`, size 0, creator and owner the caller, rwxr-xr-x, no link target. */
  function NewInode(kind: InodeType, name: seq<byte>, uid: uint32, now: int): (ino: Inode)
    ensures ino.kind == kind && ino.name == Truncate(name) && ino.size == 0
    ensures ino.creatorUid == uid && ino.ownerUid == uid && ino.permissions == DefaultPermissions
    ensures ino.blocks == NoBlocks && ino.nextInode == 0
  {
    ZeroInode.(kind := kind, name := Truncate(name), created := now, modified := now, size := 0,
               creatorUid := uid, ownerUid := uid, permissions := DefaultPermissions, linkTarget := NoLink)
  }

  // ---------------------------------------------------------------- createDirectory

  /** The steps of createDirectory before the entry is added to the parent: a new inode from
      allocateInode filled in as a directory, a new block in its blocks[0], and that block
      written with `.` naming the new directory and `..` naming the parent.  Gives the state
      and the new inode's index. */
  function StageDirectory(s: FsState, parent: nat, name: seq<byte>, uid: uint32, now: int): (r: (FsState, Result<nat>))
    requires Shaped(s) && parent < MaxInodes
    ensures SameShape(s, r.0)
    ensures r.1.Ok? ==> r.1.value < MaxInodes
    ensures r.1.Err? && r.1.error == OutOfInodes ==> r.0 == s
    ensures r.1.Err? ==> r.1.error == OutOfInodes || r.1.error == OutOfSpace
  {
    var (s1, n) := AllocateInode(s);
    if n < 0 then (s, Err(OutOfInodes))
    else
      var s2 := SetInode(s1, n, NewInode(Directory, name, uid, now));
      var (s3, nb) := AllocateBlock(s2);
      if nb < 0 then (s2, Err(OutOfSpace))
      else
        var s4 := SetInode(s3, n, WithSlot(s3.inodes[n], 0, nb));
        (WriteBlock(s4, nb, DotBlock(n, parent)).value, Ok(n))
  }

  /** createDirectory: refuses an existing directory entry of that name, and write access to a
      parent other than the root is required; then stages the new directory and adds its entry
      to the parent. */
  function CreateDirectory(s: FsState, parent: int, name: seq<byte>, uid: uint32, now: int): (r: (FsState, Outcome))
    requires Shaped(s)
    ensures SameShape(s, r.0)
    ensures !(0 <= parent < MaxInodes) ==> r == (s, Failure(BadArgument))
    ensures 0 <= parent < MaxInodes && FindEntry(s, parent, name, Directory).Ok? ==> r == (s, Failure(AlreadyExists))
    ensures 0 <= parent < MaxInodes && !FindEntry(s, parent, name, Directory).Ok? && parent != RootInode && !Writable(s, parent, uid) ==>
      r == (s, Failure(PermissionDenied))
    ensures r.1 == Failure(PermissionDenied) ==> parent != RootInode
  {
    if !(0 <= parent < MaxInodes) then (s, Failure(BadArgument))
    else if FindEntry(s, parent, name, Directory).Ok? then (s, Failure(AlreadyExists))
    else if parent != RootInode && !Writable(s, parent, uid) then (s, Failure(PermissionDenied))
    else match StageDirectory(s, parent, name, uid, now)
      case (t, Err(e)) => (t, Failure(e))
      case (t, Ok(n)) => AddEntry(t, parent, name, Directory, n, now)
  }

  // ---------------------------------------------------------------- createFile

  /** The step of createFile before the entry is added: a new inode filled in as a regular file. */
  function StageFile(s: FsState, name: seq<byte>, uid: uint32, now: int): (r: (FsState, Result<nat>))
    requires Shaped(s)
    ensures SameShape(s, r.0)
    ensures r.1.Ok? ==> r.1.value < MaxInodes
    ensures r.1.Err? ==> r == (s, Err(OutOfInodes))
  {
    var (s1, n) := AllocateInode(s);
    if n < 0 then (s, Err(OutOfInodes))
    else (SetInode(s1, n, NewInode(Regular, name, uid, now)), Ok(n))
  }

  /** createFile: the guards of createDirectory with FILE_REGULAR, then a new regular inode and
      its entry in the parent. */
  function CreateFile(s: FsState, parent: int, name: seq<byte>, uid: uint32, now: int): (r: (FsState, Outcome))
    requires Shaped(s)
    ensures SameShape(s, r.0)
    ensures !(0 <= parent < MaxInodes) ==> r == (s, Failure(BadArgument))
    ensures 0 <= parent < MaxInodes && FindEntry(s, parent, name, Regular).Ok? ==> r == (s, Failure(AlreadyExists))
    ensures 0 <= parent < MaxInodes && !FindEntry(s, parent, name, Regular).Ok? && parent != RootInode && !Writable(s, parent, uid) ==>
      r == (s, Failure(PermissionDenied))
    ensures r.1 == Failure(PermissionDenied) ==> parent != RootInode
  {
    if !(0 <= parent < MaxInodes) then (s, Failure(BadArgument))
    else if FindEntry(s, parent, name, Regular).Ok? then (s, Failure(AlreadyExists))
    else if parent != RootInode && !Writable(s, parent, uid) then (s, Failure(PermissionDenied))
    else match StageFile(s, name, uid, now)
      case (t, Err(e)) => (t, Failure(e))
      case (t, Ok(n)) => AddEntry(t, parent, name, Regular, n, now)
  }

  // ---------------------------------------------------------------- createSymlink

  /** The step of createSymlink before the entry is added: a new inode filled in as a symlink to
      target, whose permissions are copied from the target's record as it stands after the
      new record has been filled in (so a link to itself gets the zeroed record's 0). */
  function StageSymlink(s: FsState, target: nat, name: seq<byte>, uid: uint32, now: int): (r: (FsState, Result<nat>))
    requires Shaped(s) && target < MaxInodes
    ensures SameShape(s, r.0)
    ensures r.1.Ok? ==> r.1.value < MaxInodes
    ensures r.1.Err? ==> r == (s, Err(OutOfInodes))
  {
    var (s1, n) := AllocateInode(s);
    if n < 0 then (s, Err(OutOfInodes))
    else
      var s2 := SetInode(s1, n, ZeroInode.(name := Truncate(name), kind := Symlink, size := 0, linkTarget := target,
                                           created := now, modified := now, creatorUid := uid, ownerUid := uid));
      (SetInode(s2, n, s2.inodes[n].(permissions := s2.inodes[target].permissions)), Ok(n))
  }

  /** createSymlink: refuses a name that any entry of the parent already has, requires write
      access to the parent (the root included), then creates the link inode and adds its
      entry; a failed insertion frees the link inode again.  The source indexes the inode
      table with parent and target unchecked, so both must be in range; it also writes through
      allocateInode's -1 when the table is full, which the model reports as OutOfInodes. */
  function CreateSymlink(s: FsState, parent: nat, target: nat, name: seq<byte>, uid: uint32, now: int): (r: (FsState, Outcome))
    requires Shaped(s) && parent < MaxInodes && target < MaxInodes
    ensures SameShape(s, r.0)
    ensures FindEntry(s, parent, name, Symlink).Ok? ==> r == (s, Failure(AlreadyExists))
    ensures !FindEntry(s, parent, name, Symlink).Ok? && !Writable(s, parent, uid) ==> r == (s, Failure(PermissionDenied))
  {
    if FindEntry(s, parent, name, Symlink).Ok? then (s, Failure(AlreadyExists))
    else if !Writable(s, parent, uid) then (s, Failure(PermissionDenied))
    else match StageSymlink(s, target, name, uid, now)
      case (t, Err(e)) => (t, Failure(e))
      case (t, Ok(n)) => AddLink(t, parent, name, n, now)
  }

  /** The last step of createSymlink: the entry for the link inode n is added to the parent,
      and when that fails n is freed again. */
  function AddLink(t: FsState, parent: nat, name: seq<byte>, n: nat, now: int): (r: (FsState, Outcome))
    requires Shaped(t) && parent < MaxInodes && n < MaxInodes
    ensures SameShape(t, r.0)
  {
    match AddEntry(t, parent, name, Symlink, n, now)
    case (u, Success) => (u, Success)
    case (u, Failure(e)) =>
      match FreeInode(u, n, ChainFuel)
      case Ok(v) => (v, Failure(e))
      case Err(_) => (u, Failure(e))
  }

  // ---------------------------------------------------------------- deleteDirectory

  /** An entry that keeps a directory from being deleted: used, and named neither `.` nor `..`. */
  predicate Occupied(b: Block, j: nat)
    requires j < EntriesPerBlock
  {
    EntryIndex(b, j) != 0 && EntryName(b, j) != DotName && EntryName(b, j) != DotDotName
  }

  /** The first occupied entry of a block at position j or later. */
  function FirstOccupied(b: Block, j: nat): (r: Option<nat>)
    requires j <= EntriesPerBlock
    ensures r.Some? ==> j <= r.value < EntriesPerBlock && Occupied(b, r.value)
    ensures r.None? ==> forall k :: j <= k < EntriesPerBlock ==> !Occupied(b, k)
    decreases EntriesPerBlock - j
  {
    if j == EntriesPerBlock then None
    else if Occupied(b, j) then Some(j)
    else FirstOccupied(b, j + 1)
  }

  /** The emptiness scan of deleteDirectory over the remaining slots of the target's head
      inode: each nonzero slot is read and its entries checked, in slot order. */
  function CheckEmpty(s: FsState, slots: seq<uint32>): (r: Outcome)
    requires Shaped(s)
    ensures r == Success || r == Failure(IoError) || r == Failure(NotEmpty)
    ensures r == Success ==> forall k :: 0 <= k < |slots| && slots[k] != 0 ==>
      slots[k] < s.dataBlocks && forall j :: 0 <= j < EntriesPerBlock ==> !Occupied(s.disk[slots[k]], j)
    decreases |slots|
  {
    if |slots| == 0 then Success
    else if slots[0] == 0 then CheckEmpty(s, slots[1..])
    else match ReadBlock(s, slots[0])
      case Err(e) => Failure(e)
      case Ok(b) =>
        if FirstOccupied(b, 0).Some? then Failure(NotEmpty)
        else
          var rest := CheckEmpty(s, slots[1..]);
          assert rest == Success ==> forall k :: 1 <= k < |slots| && slots[k] != 0 ==>
            slots[k] < s.dataBlocks && forall j :: 0 <= j < EntriesPerBlock ==> !Occupied(s.disk[slots[k]], j) by {
            if rest == Success {
              forall k | 1 <= k < |slots| && slots[k] != 0
                ensures slots[k] < s.dataBlocks && forall j :: 0 <= j < EntriesPerBlock ==> !Occupied(s.disk[slots[k]], j)
              {
                assert slots[1..][k - 1] == slots[k];
              }
            }
          }
          rest
  }

  /** One slot of the emptiness scan, at position i of slots, with k the position after it. */
  lemma CheckEmptyAt(s: FsState, slots: seq<uint32>, i: nat, k: nat)
    requires Shaped(s) && i < |slots| && k == i + 1
    ensures slots[i] == 0 ==> CheckEmpty(s, slots[i..]) == CheckEmpty(s, slots[k..])
    ensures slots[i] != 0 && ReadBlock(s, slots[i]).Err? ==> CheckEmpty(s, slots[i..]) == Failure(ReadBlock(s, slots[i]).error)
    ensures slots[i] != 0 && ReadBlock(s, slots[i]).Ok? ==>
      CheckEmpty(s, slots[i..])
        == if FirstOccupied(ReadBlock(s, slots[i]).value, 0).Some? then Failure(NotEmpty) else CheckEmpty(s, slots[k..])
  {
    assert slots[i..][1..] == slots[k..];
  }

  /** deleteDirectory: the directory entry `name` of parent must exist, the caller must be
      allowed to write it, and its head inode's blocks must hold nothing but `.` and `..`; then
      the entry is removed and the directory's inode is freed with its chain. */
  function DeleteDirectory(s: FsState, parent: int, name: seq<byte>, uid: uint32, now: int): (r: (FsState, Outcome))
    requires Shaped(s)
    ensures SameShape(s, r.0)
  {
    match FindEntry(s, parent, name, Directory)
    case Err(e) => (s, Failure(e))
    case Ok(target) =>
      // the lookup only returns directories, so the source's type test always passes
      if !Writable(s, target, uid) then (s, Failure(PermissionDenied))
      else match CheckEmpty(s, s.inodes[target].blocks)
        case Failure(e) => (s, Failure(e))
        case Success =>
          match RemoveEntry(s, parent, name, now)
          case (t, Failure(e)) => (t, Failure(e))
          case (t, Success) =>
            match FreeInode(t, target, ChainFuel)
            case Ok(u) => (u, Success)
            case Err(e) => (t, Failure(e))
  }

  /** deleteDirectory changes nothing when the parent index is out of range, the name does not
      resolve to a directory, the caller may not write it, or it holds more than `.` and `..`. */
  lemma DeleteDirectoryRefuses(s: FsState, parent: int, name: seq<byte>, uid: uint32, now: int)
    requires Shaped(s)
    ensures var r := DeleteDirectory(s, parent, name, uid, now);
      && (!(0 <= parent < MaxInodes) ==> r == (s, Failure(BadArgument)))
      && (FindEntry(s, parent, name, Directory).Err? ==> r == (s, Failure(FindEntry(s, parent, name, Directory).error)))
      && (FindEntry(s, parent, name, Directory).Ok? && !Writable(s, FindEntry(s, parent, name, Directory).value, uid) ==>
            r == (s, Failure(PermissionDenied)))
      && (FindEntry(s, parent, name, Directory).Ok? && CheckEmpty(s, s.inodes[FindEntry(s, parent, name, Directory).value].blocks).Failure? ==>
            r.0 == s && r.1.Failure?)
  {
  }

  // ---------------------------------------------------------------- deleteFile

  /** deleteFile: the regular-file entry `name` must exist and the caller must be allowed to
      write it; its blocks are freed (its slots are left as they are), then the entry is
      removed and the inode is freed. */
  function DeleteFile(s: FsState, parent: int, name: seq<byte>, uid: uint32, now: int): (r: (FsState, Outcome))
    requires Shaped(s)
    ensures SameShape(s, r.0)
    ensures !(0 <= parent < MaxInodes) ==> r == (s, Failure(BadArgument))
    ensures FindEntry(s, parent, name, Regular).Err? ==> r == (s, Failure(FindEntry(s, parent, name, Regular).error))
    ensures FindEntry(s, parent, name, Regular).Ok? && !Writable(s, FindEntry(s, parent, name, Regular).value, uid) ==>
      r == (s, Failure(PermissionDenied))
  {
    match FindEntry(s, parent, name, Regular)
    case Err(e) => (s, Failure(e))
    case Ok(target) =>
      // the lookup only returns regular files, so the source's type test always passes
      if !Writable(s, target, uid) then (s, Failure(PermissionDenied))
      else
        var s1 := FreeSlotBlocks(s, s.inodes[target].blocks);
        match RemoveEntry(s1, parent, name, now)
        case (t, Failure(e)) => (t, Failure(e))
        case (t, Success) =>
          match FreeInode(t, target, ChainFuel)
          case Ok(u) => (u, Success)
          case Err(e) => (t, Failure(e))
  }

  // ---------------------------------------------------------------- deleteSymlink

  /** deleteSymlink: target must not be 0 and must be a symlink the caller may write; the first
      entry of parent carrying the link's own name is removed and the link inode freed.  The
      source indexes the inode table with target unchecked, so it must be in range. */
  function DeleteSymlink(s: FsState, parent: int, target: nat, uid: uint32, now: int): (r: (FsState, Outcome))
    requires Shaped(s) && target < MaxInodes
    ensures SameShape(s, r.0)
    ensures !(0 <= parent < MaxInodes) || target == 0 ==> r == (s, Failure(BadArgument))
    ensures 0 <= parent < MaxInodes && target != 0 && !Writable(s, target, uid) ==> r == (s, Failure(PermissionDenied))
    ensures 0 <= parent < MaxInodes && target != 0 && s.inodes[target].kind != Symlink ==> r.0 == s && r.1.Failure?
  {
    if !(0 <= parent < MaxInodes) || target == 0 then (s, Failure(BadArgument))
    else if !Writable(s, target, uid) then (s, Failure(PermissionDenied))
    else if s.inodes[target].kind != Symlink then (s, Failure(WrongType))
    else match RemoveEntry(s, parent, s.inodes[target].name, now)
      case (t, Failure(e)) => (t, Failure(e))
      case (t, Success) =>
        match FreeInode(t, target, ChainFuel)
        case Ok(u) => (u, Success)
        case Err(e) => (t, Failure(e))
  }
}
