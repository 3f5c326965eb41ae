/** The in-memory part of init_fs (fs.c:65-100) run on a new object of filesystem.dfy. */
module InitOps {
  import opened FsTypes
  import opened DirEntry
  import opened Store
  import opened FileSystem
  import Layout
  import opened Init
  import DirOps

  /** init_fs for a new disk: the zeroed globals, the root record in the first inode
      allocateInode hands out, and its `.` and `..` entries, whose results are ignored. */
  method InitFileSystem(l: Layout.Layout, now: int) returns (fs: Fs)
    requires Fits(l)
    ensures fs.Valid() && fs.State() == InitFs(l, now)
    ensures fresh(fs) && fresh(fs.blockBitmap) && fresh(fs.inodeBitmap) && fresh(fs.inodes)
  {
    fs := new Fs(l);
    FreshAllocatesRoot(l);
    var root := fs.AllocateInode();
    fs.SetInode(root, RootRecord(now));
    assert fs.State() == RootState(l, now);
    var _ := DirOps.AddEntry(fs, RootInode, DotName, InodeType.Directory, RootInode, now);
    var _ := DirOps.AddEntry(fs, RootInode, DotDotName, InodeType.Directory, RootInode, now);
  }
}
