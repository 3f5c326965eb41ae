/** resolvePath and createDirectoriesRecursively (fs_operations.c:290-346,
    fs_operations.c:652-698) run on the object of filesystem.dfy: the byte-by-byte token scan
    and the component loop, which advance through the path as the source's pointer does.
    Each method is proved to compute what the function of the same name in Paths or Resolve
    computes. */
module PathOps {
  import opened FsTypes
  import opened Store
  import opened FileSystem
  import opened Paths
  import opened Resolve
  import DirOps
  import LinkOps
  import LifecycleOps

  /** `while (*p && *p != '/' && i < cap) token[i++] = *p++; if (*p == '/') p++;`: the token
      and the rest of the path after it. */
  method ScanToken(p: seq<byte>, cap: nat) returns (token: seq<byte>, rest: seq<byte>)
    ensures (token, rest) == NextToken(p, cap)
  {
    var i := 0;
    while i < |p| && p[i] != Slash && i < cap
      invariant 0 <= i <= |p| && i <= cap
      invariant forall k :: 0 <= k < i ==> p[k] != Slash
    {
      i := i + 1;
    }
    FirstSlashFrom(p, i);
    token := p[..i];
    if i < |p| && p[i] == Slash {
      rest := p[i + 1..];
    } else {
      rest := p[i..];
    }
  }

  // ---------------------------------------------------------------- resolvePath

  /** The component loop of resolvePath over the path p from directory start. */
  method Walk(fs: Fs, p: seq<byte>, start: int) returns (r: Result<int>)
    requires fs.Valid()
    ensures r == Resolve.Walk(fs.State(), p, start)
  {
    var q := p;
    var cur := start;
    while |q| > 0
      invariant Resolve.Walk(fs.State(), q, cur) == Resolve.Walk(fs.State(), p, start)
      decreases |q|
    {
      var token, rest := ScanToken(q, |q|);
      if token == DotName || token == [] {
        q := rest;
        continue;
      }
      if token == DotDotName {
        var up := DirOps.FindEntry(fs, cur, DotDotName, InodeType.Directory);
        if up.Err? {
          return Err(up.error);
        }
        q, cur := rest, up.value;
        continue;
      }
      var t := if Slash in rest then InodeType.Directory else AnyType;
      var found := DirOps.FindEntry(fs, cur, token, t);
      if found.Err? {
        return Err(found.error);
      }
      var next := LinkOps.FollowLinks(fs, found.value);
      if next.Err? {
        return Err(next.error);
      }
      q, cur := rest, next.value;
    }
    return Ok(cur);
  }

  /** resolvePath. */
  method ResolvePath(fs: Fs, path: seq<byte>, cur: int) returns (r: Result<int>)
    requires fs.Valid()
    ensures r == Resolve.ResolvePath(fs.State(), path, cur)
  {
    if HasHomePrefix(path) {
      r := Walk(fs, AfterHome(path), RootInode);
    } else {
      r := Walk(fs, path, cur);
    }
  }

  // ---------------------------------------------------------------- createDirectoriesRecursively

  /** The component loop of createDirectoriesRecursively over the path p from directory start. */
  method Mkdirs(fs: Fs, p: seq<byte>, start: int, uid: uint32, now: int) returns (r: Outcome)
    requires fs.Valid()
    modifies fs, fs.blockBitmap, fs.inodeBitmap, fs.inodes
    ensures fs.Valid()
    ensures (fs.State(), r) == Resolve.Mkdirs(old(fs.State()), p, start, uid, now)
  {
    var q := p;
    var cur := start;
    while |q| > 0
      invariant fs.Valid()
      invariant Resolve.Mkdirs(fs.State(), q, cur, uid, now) == Resolve.Mkdirs(old(fs.State()), p, start, uid, now)
      decreases |q|
    {
      var token, rest := ScanToken(q, TokenCapacity);
      if token == [] || token == DotName {
        q := rest;
        continue;
      }
      if token == DotDotName {
        var up := DirOps.FindEntry(fs, cur, DotDotName, InodeType.Directory);
        if up.Err? {
          return Failure(up.error);
        }
        q, cur := rest, up.value;
        continue;
      }
      var found := DirOps.FindEntry(fs, cur, token, InodeType.Directory);
      if found.Err? {
        var made := LifecycleOps.CreateDirectory(fs, cur, token, uid, now);
        if made.Failure? {
          return made;
        }
        found := DirOps.FindEntry(fs, cur, token, InodeType.Directory);
        if found.Err? {
          return Failure(found.error);
        }
      }
      var next := LinkOps.FollowLinks(fs, found.value);
      if next.Err? {
        return Failure(next.error);
      }
      q, cur := rest, next.value;
    }
    return Success;
  }

  /** createDirectoriesRecursively. */
  method CreateDirectoriesRecursively(fs: Fs, path: seq<byte>, cur: int, uid: uint32, now: int) returns (r: Outcome)
    requires fs.Valid()
    modifies fs, fs.blockBitmap, fs.inodeBitmap, fs.inodes
    ensures fs.Valid()
    ensures (fs.State(), r) == Resolve.CreateDirectoriesRecursively(old(fs.State()), path, cur, uid, now)
  {
    if |path| == 0 {
      return Failure(BadArgument);
    }
    if path == DotName {
      return Success;
    }
    if HasHomePrefix(path) {
      r := Mkdirs(fs, AfterHome(path), RootInode, uid, now);
    } else {
      r := Mkdirs(fs, path, cur, uid, now);
    }
  }
}
