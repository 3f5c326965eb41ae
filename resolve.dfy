/** Path resolution (fs_operations.c:652-698) and mkdir -p (fs_operations.c:290-346).  Both
    walk the components of a path from a start directory: a leading `~` restarts at the root,
    empty and `.` components are skipped, `..` is looked up as the directory entry `..`, and any
    other component is looked up in the current directory and then symlinks are followed. */
module Resolve {
  import opened FsTypes
  import opened Store
  import opened Paths
  import opened Directory
  import opened Links
  import opened Lifecycle

  /** The lookup type resolvePath uses for a component: a directory when another `/` follows
      somewhere in the rest of the path, any type otherwise. */
  function ComponentType(rest: seq<byte>): (t: InodeType)
    ensures t == Directory <==> Slash in rest
    ensures t == AnyType <==> Slash !in rest
  {
    if Slash in rest then Directory else AnyType
  }

  /** The component loop of resolvePath over the remaining path p from directory cur. */
  function Walk(s: FsState, p: seq<byte>, cur: int): (r: Result<int>)
    requires Shaped(s)
    ensures |p| == 0 ==> r == Ok(cur)
    decreases |p|
  {
    if |p| == 0 then Ok(cur)
    else
      var (token, rest) := NextComponent(p);
      if token == DotName || token == [] then Walk(s, rest, cur)
      else if token == DotDotName then
        match FindEntry(s, cur, DotDotName, Directory)
        case Err(e) => Err(e)
        case Ok(up) => Walk(s, rest, up)
      else
        match FindEntry(s, cur, token, ComponentType(rest))
        case Err(e) => Err(e)
        case Ok(found) =>
          match FollowLinks(s, found, 0)
          case Err(e) => Err(e)
          case Ok(next) => Walk(s, rest, next)
  }

  /** resolvePath: the inode a path names, starting at cur or, after a leading `~`, at the root. */
  function ResolvePath(s: FsState, path: seq<byte>, cur: int): (r: Result<int>)
    requires Shaped(s)
    ensures |path| == 0 ==> r == Ok(cur)
  {
    if HasHomePrefix(path) then Walk(s, AfterHome(path), RootInode) else Walk(s, path, cur)
  }

  /** A leading `~` makes the start directory irrelevant. */
  lemma HomeIgnoresStart(s: FsState, path: seq<byte>, cur: int, other: int)
    requires Shaped(s) && HasHomePrefix(path)
    ensures ResolvePath(s, path, cur) == ResolvePath(s, path, other) == Walk(s, AfterHome(path), RootInode)
  {
  }

  /** Splitting a component followed by a `/` off the front of a path. */
  lemma ComponentThenSlash(token: seq<byte>, rest: seq<byte>)
    requires Slash !in token
    ensures NextComponent(token + [Slash] + rest) == (token, rest)
  {
    var p := token + [Slash] + rest;
    assert p[..|token|] == token;
    assert FirstSlash(p) == |token| by {
      assert p[|token|] == Slash;
      assert forall i :: 0 <= i < |token| ==> p[i] == token[i] != Slash;
    }
    assert p[|token| + 1..] == rest;
  }

  /** A last component takes the whole remaining path. */
  lemma LastComponent(token: seq<byte>)
    requires Slash !in token && |token| > 0
    ensures NextComponent(token) == (token, [])
  {
    assert token[..|token|] == token;
  }

  /** Empty and `.` components are skipped. */
  lemma SkipsDotAndEmpty(s: FsState, rest: seq<byte>, cur: int)
    requires Shaped(s)
    ensures Walk(s, [Slash] + rest, cur) == Walk(s, rest, cur)
    ensures Walk(s, DotName + [Slash] + rest, cur) == Walk(s, rest, cur)
    ensures Walk(s, DotName, cur) == Ok(cur)
  {
    ComponentThenSlash([], rest);
    assert [] + [Slash] + rest == [Slash] + rest;
    ComponentThenSlash(DotName, rest);
    LastComponent(DotName);
  }

  /** `..` moves to the inode named by the current directory's `..` entry. */
  lemma ParentComponent(s: FsState, rest: seq<byte>, cur: int)
    requires Shaped(s)
    ensures FindEntry(s, cur, DotDotName, Directory).Err? ==>
      Walk(s, DotDotName + [Slash] + rest, cur) == Err(FindEntry(s, cur, DotDotName, Directory).error)
    ensures FindEntry(s, cur, DotDotName, Directory).Ok? ==>
      Walk(s, DotDotName + [Slash] + rest, cur) == Walk(s, rest, FindEntry(s, cur, DotDotName, Directory).value)
  {
    ComponentThenSlash(DotDotName, rest);
  }

  /** Any other component is looked up as a directory when a further `/` follows it and as any
      type at the end of the path, and symlinks from the entry found are followed. */
  lemma NamedComponent(s: FsState, token: seq<byte>, rest: seq<byte>, cur: int)
    requires Shaped(s) && Slash !in token && token != [] && token != DotName && token != DotDotName
    ensures var found := FindEntry(s, cur, token, if Slash in rest then Directory else AnyType);
      && (found.Err? ==> Walk(s, token + [Slash] + rest, cur) == Err(found.error))
      && (found.Ok? && FollowLinks(s, found.value, 0).Err? ==> Walk(s, token + [Slash] + rest, cur) == Err(FollowLinks(s, found.value, 0).error))
      && (found.Ok? && FollowLinks(s, found.value, 0).Ok? ==> Walk(s, token + [Slash] + rest, cur) == Walk(s, rest, FollowLinks(s, found.value, 0).value))
  {
    ComponentThenSlash(token, rest);
  }

  /** The first component of p + "/" + token is either all of p, or a proper prefix of p
      ending at a `/` of p. */
  lemma ComponentOfJoin(p: seq<byte>, token: seq<byte>)
    ensures var (tok, rest) := NextComponent(p + [Slash] + token);
      || (tok == p && rest == token)
      || (|tok| < |p| && p[|tok|] == Slash && p[..|tok|] == tok && rest == p[|tok| + 1..] + [Slash] + token)
  {
    var q := p + [Slash] + token;
    var n := FirstSlash(q);
    assert q[|p|] == Slash;
    assert q[..n] == p[..n];
    if n == |p| {
      assert q[..n] == p && q[n + 1..] == token;
    } else {
      assert q[n] == p[n];
      assert q[n + 1..] == p[n + 1..] + [Slash] + token;
    }
  }

  /** A path whose last component is an ordinary name resolves to an inode that is not a symlink. */
  lemma {:induction false} LastNameNotSymlink(s: FsState, p: seq<byte>, token: seq<byte>, cur: int)
    requires Shaped(s) && Slash !in token && token != [] && token != DotName && token != DotDotName
    requires Walk(s, p + [Slash] + token, cur).Ok?
    ensures var x := Walk(s, p + [Slash] + token, cur).value; 0 <= x < MaxInodes && s.inodes[x].kind != Symlink
    decreases |p|
  {
    var q := p + [Slash] + token;
    var (tok, rest) := NextComponent(q);
    ComponentOfJoin(p, token);
    var c: int := if tok == DotName || tok == [] then cur
      else if tok == DotDotName then FindEntry(s, cur, DotDotName, Directory).value
      else FollowLinks(s, FindEntry(s, cur, tok, ComponentType(rest)).value, 0).value;
    assert Walk(s, q, cur) == Walk(s, rest, c);
    if tok == p {
      LastComponent(token);
    } else {
      LastNameNotSymlink(s, p[|tok| + 1..], token, c);
    }
  }

  // ---------------------------------------------------------------- createDirectoriesRecursively

  /** The component loop of createDirectoriesRecursively: like resolvePath's, but components
      are cut at 255 bytes, a missing component is created as a directory and looked up again,
      and every component is looked up as a directory. */
  function Mkdirs(s: FsState, p: seq<byte>, cur: int, uid: uint32, now: int): (r: (FsState, Outcome))
    requires Shaped(s)
    ensures SameShape(s, r.0)
    ensures |p| == 0 ==> r == (s, Success)
    decreases |p|
  {
    if |p| == 0 then (s, Success)
    else
      var (token, rest) := NextToken(p, TokenCapacity);
      if token == [] || token == DotName then Mkdirs(s, rest, cur, uid, now)
      else if token == DotDotName then
        match FindEntry(s, cur, DotDotName, Directory)
        case Err(e) => (s, Failure(e))
        case Ok(up) => Mkdirs(s, rest, up, uid, now)
      else
        var (s1, found) :=
          if FindEntry(s, cur, token, Directory).Ok? then (s, FindEntry(s, cur, token, Directory))
          else
            var (t, made) := CreateDirectory(s, cur, token, uid, now);
            if made.Failure? then (t, Err(made.error)) else (t, FindEntry(t, cur, token, Directory));
        match found
        case Err(e) => (s1, Failure(e))
        case Ok(x) =>
          // x is a directory here, so this loop never dereferences anything
          match FollowLinks(s1, x, 0)
          case Err(e) => (s1, Failure(e))
          case Ok(next) => Mkdirs(s1, rest, next, uid, now)
  }

  /** createDirectoriesRecursively: the empty path is refused, `.` is done at once, and a
      leading `~` starts the walk at the root. */
  function CreateDirectoriesRecursively(s: FsState, path: seq<byte>, cur: int, uid: uint32, now: int): (r: (FsState, Outcome))
    requires Shaped(s)
    ensures SameShape(s, r.0)
    ensures |path| == 0 ==> r == (s, Failure(BadArgument))
    ensures path == DotName ==> r == (s, Success)
  {
    if |path| == 0 then (s, Failure(BadArgument))
    else if path == DotName then (s, Success)
    else if HasHomePrefix(path) then Mkdirs(s, AfterHome(path), RootInode, uid, now)
    else Mkdirs(s, path, cur, uid, now)
  }

  /** After creating a one-component path, the current directory has a directory entry of that
      name, and running the call again changes nothing. */
  lemma MkdirsSingleExists(s: FsState, token: seq<byte>, cur: int, uid: uint32, now: int)
    requires Shaped(s) && Slash !in token && 0 < |token| <= TokenCapacity
    requires token != DotName && token != DotDotName
    requires Mkdirs(s, token, cur, uid, now).1 == Success
    ensures FindEntry(Mkdirs(s, token, cur, uid, now).0, cur, token, Directory).Ok?
    ensures Mkdirs(Mkdirs(s, token, cur, uid, now).0, token, cur, uid, now) == (Mkdirs(s, token, cur, uid, now).0, Success)
  {
    assert NextToken(token, TokenCapacity) == (token, []) by {
      assert token[..|token|] == token;
    }
  }

  /** A leading `~` makes createDirectoriesRecursively start at the root whatever the start. */
  lemma MkdirsHome(s: FsState, path: seq<byte>, cur: int, other: int, uid: uint32, now: int)
    requires Shaped(s) && HasHomePrefix(path)
    ensures CreateDirectoriesRecursively(s, path, cur, uid, now)
      == CreateDirectoriesRecursively(s, path, other, uid, now)
      == Mkdirs(s, AfterHome(path), RootInode, uid, now)
  {
    assert path != DotName by { assert path[0] != DotName[0]; }
  }

  /** Splitting a token of at most 255 bytes followed by a `/` off the front of a path. */
  lemma TokenThenSlash(token: seq<byte>, rest: seq<byte>)
    requires Slash !in token && |token| <= TokenCapacity
    ensures NextToken(token + [Slash] + rest, TokenCapacity) == (token, rest)
  {
    var p := token + [Slash] + rest;
    assert p[..|token|] == token;
    assert FirstSlash(p) == |token| by {
      assert p[|token|] == Slash;
      assert forall i :: 0 <= i < |token| ==> p[i] == token[i] != Slash;
    }
    assert p[|token| + 1..] == rest;
  }

  /** The mkdir -p loop skips empty and `.` components too. */
  lemma MkdirsSkipsDotAndEmpty(s: FsState, rest: seq<byte>, cur: int, uid: uint32, now: int)
    requires Shaped(s)
    ensures Mkdirs(s, [Slash] + rest, cur, uid, now) == Mkdirs(s, rest, cur, uid, now)
    ensures Mkdirs(s, DotName + [Slash] + rest, cur, uid, now) == Mkdirs(s, rest, cur, uid, now)
    ensures Mkdirs(s, DotName, cur, uid, now) == (s, Success)
  {
    TokenThenSlash([], rest);
    assert [] + [Slash] + rest == [Slash] + rest;
    TokenThenSlash(DotName, rest);
    assert NextToken(DotName, TokenCapacity) == (DotName, []) by {
      assert DotName[..1] == DotName;
    }
  }

  /** In the mkdir -p loop `..` moves through the current directory's `..` entry, and a failed
      lookup of it ends the call with nothing changed. */
  lemma MkdirsParent(s: FsState, rest: seq<byte>, cur: int, uid: uint32, now: int)
    requires Shaped(s)
    ensures FindEntry(s, cur, DotDotName, Directory).Err? ==>
      Mkdirs(s, DotDotName + [Slash] + rest, cur, uid, now) == (s, Failure(FindEntry(s, cur, DotDotName, Directory).error))
    ensures FindEntry(s, cur, DotDotName, Directory).Ok? ==>
      Mkdirs(s, DotDotName + [Slash] + rest, cur, uid, now) == Mkdirs(s, rest, FindEntry(s, cur, DotDotName, Directory).value, uid, now)
  {
    TokenThenSlash(DotDotName, rest);
  }

  /** Any other component (the first 255 bytes of it) is looked up as a directory in cur; when
      it is missing it is created there with createDirectory and looked up again, and the walk
      goes on from the directory found. A failed creation or second lookup ends the call in
      the state reached. */
  lemma MkdirsNamed(s: FsState, p: seq<byte>, cur: int, uid: uint32, now: int)
    requires Shaped(s) && |p| > 0
    requires var token := NextToken(p, TokenCapacity).0; token != [] && token != DotName && token != DotDotName
    ensures var (token, rest) := NextToken(p, TokenCapacity);
      var found := FindEntry(s, cur, token, Directory);
      found.Ok? ==> Mkdirs(s, p, cur, uid, now) == Mkdirs(s, rest, found.value, uid, now)
    ensures var (token, rest) := NextToken(p, TokenCapacity);
      var made := CreateDirectory(s, cur, token, uid, now);
      !FindEntry(s, cur, token, Directory).Ok? && made.1.Failure? ==> Mkdirs(s, p, cur, uid, now) == made
    ensures var (token, rest) := NextToken(p, TokenCapacity);
      var made := CreateDirectory(s, cur, token, uid, now);
      var again := FindEntry(made.0, cur, token, Directory);
      !FindEntry(s, cur, token, Directory).Ok? && made.1 == Success ==>
        && (again.Err? ==> Mkdirs(s, p, cur, uid, now) == (made.0, Failure(again.error)))
        && (again.Ok? ==> Mkdirs(s, p, cur, uid, now) == Mkdirs(made.0, rest, again.value, uid, now))
  {
  }

  /** So a successful call found the component's directory in cur, or created it and then
      found it, and walked the rest of the path from there. */
  lemma MkdirsNamedSucceeds(s: FsState, p: seq<byte>, cur: int, uid: uint32, now: int)
    requires Shaped(s) && |p| > 0
    requires var token := NextToken(p, TokenCapacity).0; token != [] && token != DotName && token != DotDotName
    requires Mkdirs(s, p, cur, uid, now).1 == Success
    ensures var (token, rest) := NextToken(p, TokenCapacity);
      var existed := FindEntry(s, cur, token, Directory).Ok?;
      var s1 := if existed then s else CreateDirectory(s, cur, token, uid, now).0;
      && (!existed ==> CreateDirectory(s, cur, token, uid, now).1 == Success)
      && FindEntry(s1, cur, token, Directory).Ok?
      && s1.inodes[FindEntry(s1, cur, token, Directory).value].kind == Directory
      && Mkdirs(s, p, cur, uid, now) == Mkdirs(s1, rest, FindEntry(s1, cur, token, Directory).value, uid, now)
  {
    MkdirsNamed(s, p, cur, uid, now);
  }
}
