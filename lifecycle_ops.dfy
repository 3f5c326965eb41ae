/** createDirectory, createFile, createSymlink and their deletions (fs_operations.c:243-287,
    fs_operations.c:349-444, fs_operations.c:602-649) run in place on the object of
    filesystem.dfy.  Each method is proved to end as the function of the same name in Lifecycle
    says; where a directory walk or freeInode gives up with Diverges (the source would not
    return), only the outcome is stated. */
module LifecycleOps {
  import opened FsTypes
  import opened DirEntry
  import opened Store
  import opened Permissions
  import opened FileSystem
  import Dir = Directory
  import DirOps
  import opened Lifecycle
  import LifecycleEffects

  /** `hasPermission(&inode_table[i], uid, PERM_WRITE)`. */
  function Writable(fs: Fs, i: nat, uid: uint32): (w: bool)
    requires fs.Valid() && i < MaxInodes
    reads fs, fs.blockBitmap, fs.inodeBitmap, fs.inodes
    ensures w == Lifecycle.Writable(fs.State(), i, uid)
  {
    var ino := fs.InodeAt(i);
    HasPermission(ino.permissions, ino.ownerUid, uid, PermWrite) != 0
  }

  // ---------------------------------------------------------------- createDirectory

  /** The new directory's inode, its block and the `.`/`..` entries written to it. */
  method StageDirectory(fs: Fs, parent: nat, name: seq<byte>, uid: uint32, now: int) returns (r: Result<nat>)
    requires fs.Valid() && parent < MaxInodes
    modifies fs, fs.blockBitmap, fs.inodeBitmap, fs.inodes
    ensures fs.Valid()
    ensures (fs.State(), r) == Lifecycle.StageDirectory(old(fs.State()), parent, name, uid, now)
  {
    var n := fs.AllocateInode();
    if n < 0 {
      return Err(OutOfInodes);
    }
    fs.SetInode(n, NewInode(InodeType.Directory, name, uid, now));
    var nb := fs.AllocateBlock();
    if nb < 0 {
      return Err(OutOfSpace);
    }
    fs.SetInode(n, WithSlot(fs.InodeAt(n), 0, nb));
    // nb lies in the data region, so the write succeeds
    var _ := fs.WriteBlock(nb, DotBlock(n, parent));
    return Ok(n);
  }

  /** createDirectory. */
  method CreateDirectory(fs: Fs, parent: int, name: seq<byte>, uid: uint32, now: int) returns (r: Outcome)
    requires fs.Valid()
    modifies fs, fs.blockBitmap, fs.inodeBitmap, fs.inodes
    ensures fs.Valid()
    ensures (fs.State(), r) == Lifecycle.CreateDirectory(old(fs.State()), parent, name, uid, now)
  {
    if !(0 <= parent < MaxInodes) {
      return Failure(BadArgument);
    }
    var found := DirOps.FindEntry(fs, parent, name, InodeType.Directory);
    if found.Ok? {
      return Failure(AlreadyExists);
    }
    if parent != RootInode && !Writable(fs, parent, uid) {
      return Failure(PermissionDenied);
    }
    var staged := StageDirectory(fs, parent, name, uid, now);
    if staged.Err? {
      return Failure(staged.error);
    }
    r := DirOps.AddEntry(fs, parent, name, InodeType.Directory, staged.value, now);
  }

  // ---------------------------------------------------------------- createFile

  /** The new regular file's inode. */
  method StageFile(fs: Fs, name: seq<byte>, uid: uint32, now: int) returns (r: Result<nat>)
    requires fs.Valid()
    modifies fs.inodeBitmap, fs.inodes
    ensures fs.Valid()
    ensures (fs.State(), r) == Lifecycle.StageFile(old(fs.State()), name, uid, now)
  {
    var n := fs.AllocateInode();
    if n < 0 {
      return Err(OutOfInodes);
    }
    fs.SetInode(n, NewInode(Regular, name, uid, now));
    return Ok(n);
  }

  /** createFile. */
  method CreateFile(fs: Fs, parent: int, name: seq<byte>, uid: uint32, now: int) returns (r: Outcome)
    requires fs.Valid()
    modifies fs, fs.blockBitmap, fs.inodeBitmap, fs.inodes
    ensures fs.Valid()
    ensures (fs.State(), r) == Lifecycle.CreateFile(old(fs.State()), parent, name, uid, now)
  {
    if !(0 <= parent < MaxInodes) {
      return Failure(BadArgument);
    }
    var found := DirOps.FindEntry(fs, parent, name, Regular);
    if found.Ok? {
      return Failure(AlreadyExists);
    }
    if parent != RootInode && !Writable(fs, parent, uid) {
      return Failure(PermissionDenied);
    }
    var staged := StageFile(fs, name, uid, now);
    if staged.Err? {
      return Failure(staged.error);
    }
    r := DirOps.AddEntry(fs, parent, name, Regular, staged.value, now);
  }

  // ---------------------------------------------------------------- createSymlink

  /** The new link's inode, taking the target's permissions once its own record is filled in. */
  method StageSymlink(fs: Fs, target: nat, name: seq<byte>, uid: uint32, now: int) returns (r: Result<nat>)
    requires fs.Valid() && target < MaxInodes
    modifies fs.inodeBitmap, fs.inodes
    ensures fs.Valid()
    ensures (fs.State(), r) == Lifecycle.StageSymlink(old(fs.State()), target, name, uid, now)
  {
    var n := fs.AllocateInode();
    if n < 0 {
      return Err(OutOfInodes);
    }
    fs.SetInode(n, ZeroInode.(name := Truncate(name), kind := Symlink, size := 0, linkTarget := target,
                              created := now, modified := now, creatorUid := uid, ownerUid := uid));
    fs.SetInode(n, fs.InodeAt(n).(permissions := fs.InodeAt(target).permissions));
    return Ok(n);
  }

  /** createSymlink, which frees the link inode again when its entry cannot be added. */
  method CreateSymlink(fs: Fs, parent: nat, target: nat, name: seq<byte>, uid: uint32, now: int) returns (r: Outcome)
    requires fs.Valid() && parent < MaxInodes && target < MaxInodes
    modifies fs, fs.blockBitmap, fs.inodeBitmap, fs.inodes
    ensures fs.Valid()
    ensures (fs.State(), r) == Lifecycle.CreateSymlink(old(fs.State()), parent, target, name, uid, now)
  {
    var found := DirOps.FindEntry(fs, parent, name, Symlink);
    if found.Ok? {
      return Failure(AlreadyExists);
    }
    if !Writable(fs, parent, uid) {
      return Failure(PermissionDenied);
    }
    ghost var s := fs.State();
    var staged := StageSymlink(fs, target, name, uid, now);
    if staged.Err? {
      return Failure(staged.error);
    }
    LifecycleEffects.CreateSymlinkUndoCompletes(s, parent, target, name, uid, now);
    r := AddLink(fs, parent, name, staged.value, now);
  }

  /** The last step of createSymlink, for a link inode n whose freeing after a failed
      insertion completes. */
  method AddLink(fs: Fs, parent: nat, name: seq<byte>, n: nat, now: int) returns (r: Outcome)
    requires fs.Valid() && parent < MaxInodes && n < MaxInodes
    requires FreeInode(Dir.AddEntry(fs.State(), parent, name, Symlink, n, now).0, n, Dir.ChainFuel).Ok?
    modifies fs, fs.blockBitmap, fs.inodeBitmap, fs.inodes
    ensures fs.Valid()
    ensures (fs.State(), r) == Lifecycle.AddLink(old(fs.State()), parent, name, n, now)
  {
    r := DirOps.AddEntry(fs, parent, name, Symlink, n, now);
    if r.Failure? {
      var _ := fs.FreeInode(n, Dir.ChainFuel);
    }
  }

  // ---------------------------------------------------------------- deleteDirectory

  /** The entry loop of deleteDirectory: the first entry that is used and named neither `.`
      nor `..`. */
  method FirstOccupied(b: Block) returns (r: Option<nat>)
    ensures r == Lifecycle.FirstOccupied(b, 0)
  {
    var j := 0;
    while j < EntriesPerBlock
      invariant 0 <= j <= EntriesPerBlock
      invariant Lifecycle.FirstOccupied(b, j) == Lifecycle.FirstOccupied(b, 0)
    {
      if Occupied(b, j) {
        return Some(j);
      }
      j := j + 1;
    }
    return None;
  }

  /** The slot loop of deleteDirectory over the blocks of the target's head inode. */
  method CheckEmpty(fs: Fs, target: nat) returns (r: Outcome)
    requires fs.Valid() && target < MaxInodes
    ensures r == Lifecycle.CheckEmpty(fs.State(), fs.InodeAt(target).blocks)
  {
    ghost var slots := fs.InodeAt(target).blocks;
    var i := 0;
    while i < BlocksPerInode
      invariant 0 <= i <= BlocksPerInode
      invariant Lifecycle.CheckEmpty(fs.State(), slots[i..]) == Lifecycle.CheckEmpty(fs.State(), slots)
    {
      CheckEmptyAt(fs.State(), slots, i, i + 1);
      var bn := fs.InodeAt(target).blocks[i];
      if bn != 0 {
        var read := fs.ReadBlock(bn);
        if read.Err? {
          return Failure(read.error);
        }
        var j := FirstOccupied(read.value);
        if j.Some? {
          return Failure(NotEmpty);
        }
      }
      i := i + 1;
    }
    return Success;
  }

  /** deleteDirectory. */
  method DeleteDirectory(fs: Fs, parent: int, name: seq<byte>, uid: uint32, now: int) returns (r: Outcome)
    requires fs.Valid()
    modifies fs, fs.blockBitmap, fs.inodeBitmap, fs.inodes
    ensures fs.Valid()
    ensures r == Lifecycle.DeleteDirectory(old(fs.State()), parent, name, uid, now).1
    ensures r != Failure(Diverges) ==> fs.State() == Lifecycle.DeleteDirectory(old(fs.State()), parent, name, uid, now).0
  {
    var found := DirOps.FindEntry(fs, parent, name, InodeType.Directory);
    if found.Err? {
      return Failure(found.error);
    }
    var target := found.value;
    if !Writable(fs, target, uid) {
      return Failure(PermissionDenied);
    }
    var empty := CheckEmpty(fs, target);
    if empty.Failure? {
      return empty;
    }
    r := DirOps.RemoveEntry(fs, parent, name, now);
    if r.Failure? {
      return;
    }
    var diverged := fs.FreeInode(target, Dir.ChainFuel);
    if diverged {
      return Failure(Diverges);
    }
  }

  // ---------------------------------------------------------------- deleteFile

  /** deleteFile. */
  method DeleteFile(fs: Fs, parent: int, name: seq<byte>, uid: uint32, now: int) returns (r: Outcome)
    requires fs.Valid()
    modifies fs, fs.blockBitmap, fs.inodeBitmap, fs.inodes
    ensures fs.Valid()
    ensures r == Lifecycle.DeleteFile(old(fs.State()), parent, name, uid, now).1
    ensures r != Failure(Diverges) ==> fs.State() == Lifecycle.DeleteFile(old(fs.State()), parent, name, uid, now).0
  {
    var found := DirOps.FindEntry(fs, parent, name, Regular);
    if found.Err? {
      return Failure(found.error);
    }
    var target := found.value;
    if !Writable(fs, target, uid) {
      return Failure(PermissionDenied);
    }
    fs.FreeSlots(target);
    r := DirOps.RemoveEntry(fs, parent, name, now);
    if r.Failure? {
      return;
    }
    var diverged := fs.FreeInode(target, Dir.ChainFuel);
    if diverged {
      return Failure(Diverges);
    }
  }

  // ---------------------------------------------------------------- deleteSymlink

  /** deleteSymlink. */
  method DeleteSymlink(fs: Fs, parent: int, target: nat, uid: uint32, now: int) returns (r: Outcome)
    requires fs.Valid() && target < MaxInodes
    modifies fs, fs.blockBitmap, fs.inodeBitmap, fs.inodes
    ensures fs.Valid()
    ensures r == Lifecycle.DeleteSymlink(old(fs.State()), parent, target, uid, now).1
    ensures r != Failure(Diverges) ==> fs.State() == Lifecycle.DeleteSymlink(old(fs.State()), parent, target, uid, now).0
  {
    if !(0 <= parent < MaxInodes) || target == 0 {
      return Failure(BadArgument);
    }
    if !Writable(fs, target, uid) {
      return Failure(PermissionDenied);
    }
    if fs.InodeAt(target).kind != Symlink {
      return Failure(WrongType);
    }
    r := DirOps.RemoveEntry(fs, parent, fs.InodeAt(target).name, now);
    if r.Failure? {
      return;
    }
    var diverged := fs.FreeInode(target, Dir.ChainFuel);
    if diverged {
      return Failure(Diverges);
    }
  }
}
