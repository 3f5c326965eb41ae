/** The symlink-following loop run on the object of filesystem.dfy. */
module LinkOps {
  import opened FsTypes
  import opened Store
  import opened FileSystem
  import opened Links

  /** `while (inode_table[i].type == FILE_SYMLINK) { i = link_target_index; if (++depth > 16)
      fail; }` from inode i with no dereference made yet. */
  method FollowLinks(fs: Fs, i: nat) returns (r: Result<nat>)
    requires fs.Valid() && i < MaxInodes
    ensures r == Links.FollowLinks(fs.State(), i, 0)
  {
    var cur: nat := i;
    var depth: nat := 0;
    while fs.InodeAt(cur).kind == Symlink
      invariant cur < MaxInodes && depth <= MaxSymlinkHops
      invariant Links.FollowLinks(fs.State(), cur, depth) == Links.FollowLinks(fs.State(), i, 0)
      decreases MaxSymlinkHops - depth
    {
      var next := fs.InodeAt(cur).linkTarget;
      if depth + 1 > MaxSymlinkHops {
        return Err(SymlinkLoop);
      }
      if next >= MaxInodes {
        return Err(BadIndex);
      }
      assert Links.FollowLinks(fs.State(), cur, depth) == Links.FollowLinks(fs.State(), next, depth + 1);
      cur, depth := next, depth + 1;
    }
    return Ok(cur);
  }
}
