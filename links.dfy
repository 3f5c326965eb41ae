/** The symlink-following loop shared by resolvePath, createDirectoriesRecursively and
    readContentFromInode (fs_operations.c:336-340, fs_operations.c:557-560,
    fs_operations.c:689-693): while the inode is a symlink, move to its link_target_index,
    failing once more than 16 dereferences have been made. */
module Links {
  import opened FsTypes
  import opened Store

  const MaxSymlinkHops: nat := 16

  /** The loop entered at inode i with `depth` dereferences already made.  A target outside
      the inode table, which the source would read past the table, fails with BadIndex. */
  function FollowLinks(s: FsState, i: nat, depth: nat): (r: Result<nat>)
    requires Shaped(s) && i < MaxInodes && depth <= MaxSymlinkHops
    ensures r.Ok? ==> r.value < MaxInodes && s.inodes[r.value].kind != Symlink
    ensures s.inodes[i].kind != Symlink ==> r == Ok(i)
    ensures r.Err? ==> r.error == SymlinkLoop || r.error == BadIndex
    decreases MaxSymlinkHops - depth
  {
    if s.inodes[i].kind != Symlink then Ok(i)
    else
      var next := s.inodes[i].linkTarget;
      if depth + 1 > MaxSymlinkHops then Err(SymlinkLoop)
      else if next >= MaxInodes then Err(BadIndex)
      else FollowLinks(s, next, depth + 1)
  }

  /** A run of symlinks: every inode but the last is a symlink whose target is the next. */
  predicate LinkPath(s: FsState, path: seq<nat>)
    requires Shaped(s)
  {
    && (forall k :: 0 <= k < |path| ==> path[k] < MaxInodes)
    && (forall k :: 0 <= k < |path| - 1 ==> s.inodes[path[k]].kind == Symlink && s.inodes[path[k]].linkTarget == path[k + 1])
  }

  /** The inodes the loop visits from i on, ending at the inode where it stops. */
  function Trail(s: FsState, i: nat, depth: nat): (path: seq<nat>)
    requires Shaped(s) && i < MaxInodes && depth <= MaxSymlinkHops
    ensures |path| >= 1 && path[0] == i && LinkPath(s, path)
    ensures |path| <= MaxSymlinkHops - depth + 1
    decreases MaxSymlinkHops - depth
  {
    var next := s.inodes[i].linkTarget;
    if s.inodes[i].kind != Symlink || depth + 1 > MaxSymlinkHops || next >= MaxInodes then [i]
    else [i] + Trail(s, next, depth + 1)
  }

  /** Following a symlink run of n links is the same as starting n links further on. */
  lemma {:induction false} FollowAlongPath(s: FsState, path: seq<nat>, depth: nat)
    requires Shaped(s) && |path| >= 1 && LinkPath(s, path)
    requires depth + |path| - 1 <= MaxSymlinkHops
    ensures FollowLinks(s, path[0], depth) == FollowLinks(s, path[|path| - 1], depth + |path| - 1)
    decreases |path|
  {
    if |path| > 1 {
      assert LinkPath(s, path[1..]);
      FollowAlongPath(s, path[1..], depth + 1);
    }
  }

  /** A success is reached along a run of at most 16 links ending at a non-symlink. */
  lemma {:induction false} FollowLinksTrail(s: FsState, i: nat, depth: nat)
    requires Shaped(s) && i < MaxInodes && depth <= MaxSymlinkHops
    requires FollowLinks(s, i, depth).Ok?
    ensures var path := Trail(s, i, depth);
      path[|path| - 1] == FollowLinks(s, i, depth).value && |path| - 1 <= MaxSymlinkHops - depth
    decreases MaxSymlinkHops - depth
  {
    if s.inodes[i].kind == Symlink {
      FollowLinksTrail(s, s.inodes[i].linkTarget, depth + 1);
    }
  }

  /** Every run of at most 16 links ending at a non-symlink is followed to its end. */
  lemma ShortPathResolves(s: FsState, path: seq<nat>)
    requires Shaped(s) && |path| >= 1 && LinkPath(s, path)
    requires |path| - 1 <= MaxSymlinkHops && s.inodes[path[|path| - 1]].kind != Symlink
    ensures FollowLinks(s, path[0], 0) == Ok(path[|path| - 1])
  {
    FollowAlongPath(s, path, 0);
  }

  /** A run of 17 symlinks is refused: the 17th dereference exceeds the bound. */
  lemma LongPathRefused(s: FsState, path: seq<nat>)
    requires Shaped(s) && |path| == MaxSymlinkHops + 1 && LinkPath(s, path)
    requires s.inodes[path[MaxSymlinkHops]].kind == Symlink
    ensures FollowLinks(s, path[0], 0) == Err(SymlinkLoop)
  {
    FollowAlongPath(s, path, 0);
  }

  /** A symlink that names itself is refused. */
  lemma {:induction false} SelfLinkRefused(s: FsState, i: nat, depth: nat)
    requires Shaped(s) && i < MaxInodes && depth <= MaxSymlinkHops
    requires s.inodes[i].kind == Symlink && s.inodes[i].linkTarget == i
    ensures FollowLinks(s, i, depth) == Err(SymlinkLoop)
    decreases MaxSymlinkHops - depth
  {
    if depth + 1 <= MaxSymlinkHops {
      SelfLinkRefused(s, i, depth + 1);
    }
  }
}
