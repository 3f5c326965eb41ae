/** Path strings: the token scanner shared by resolvePath and createDirectoriesRecursively
    (fs_operations.c:309-314, fs_operations.c:664-669) and splitPath (fs_operations.c:701-712).
    Paths are the bytes of a C string, so they hold no NUL. */
module Paths {
  import opened FsTypes

  /** Length of the token that resolvePath copies before its loop reaches a `/`. */
  const TokenCapacity: nat := 255

  /** Index of the first `/` of p, or |p| when there is none. */
  function FirstSlash(p: seq<byte>): (n: nat)
    ensures n <= |p|
    ensures Slash !in p[..n]
    ensures forall i :: 0 <= i < n ==> p[i] != Slash
    ensures n < |p| ==> p[n] == Slash
  {
    if |p| == 0 then 0
    else if p[0] == Slash then 0
    else
      var n := 1 + FirstSlash(p[1..]);
      assert p[..n] == [p[0]] + p[1..][..n - 1];
      n
  }

  /** With no `/` among the first i bytes, the first `/` is at i or beyond, and exactly at i
      when p ends there or has a `/` there. */
  lemma {:induction false} FirstSlashFrom(p: seq<byte>, i: nat)
    requires i <= |p| && forall k :: 0 <= k < i ==> p[k] != Slash
    ensures i <= FirstSlash(p)
    ensures i == |p| || p[i] == Slash ==> FirstSlash(p) == i
  {
    if i > 0 {
      FirstSlashFrom(p[1..], i - 1);
    }
  }

  /** One round of the token loop: copy bytes up to the next `/`, the end of the path or cap
      bytes, whichever comes first, then skip one `/` if the scan stopped at one. */
  function NextToken(p: seq<byte>, cap: nat): (r: (seq<byte>, seq<byte>))
    ensures |r.0| <= cap && Slash !in r.0
    ensures p == r.0 + [Slash] + r.1 || p == r.0 + r.1
    // the scan stops early only at a slash, which is then consumed
    ensures |r.0| < cap && |r.0| < |p| ==> p == r.0 + [Slash] + r.1
    ensures p == r.0 + r.1 ==> r.1 == [] || |r.0| == cap
    // every round consumes at least one byte when tokens may be nonempty
    ensures |p| > 0 && cap > 0 ==> |r.1| < |p|
  {
    var n := Min(FirstSlash(p), cap);
    assert Slash !in p[..n] by { assert p[..n] == p[..FirstSlash(p)][..n]; }
    if n < |p| && p[n] == Slash then
      assert p == p[..n] + [Slash] + p[n + 1..];
      (p[..n], p[n + 1..])
    else
      assert p == p[..n] + p[n..];
      (p[..n], p[n..])
  }

  /** The scanner of resolvePath, whose token buffer is not bounded by the loop. */
  function NextComponent(p: seq<byte>): (r: (seq<byte>, seq<byte>))
    ensures Slash !in r.0
    ensures p == r.0 + [Slash] + r.1 || (p == r.0 && r.1 == [])
    ensures |p| > 0 ==> |r.1| < |p|
  {
    NextToken(p, |p|)
  }

  /** A leading `~` makes the path start at the root; one `/` after it is skipped. */
  predicate HasHomePrefix(path: seq<byte>) {
    |path| > 0 && path[0] == Tilde
  }

  function AfterHome(path: seq<byte>): (rest: seq<byte>)
    requires HasHomePrefix(path)
    ensures path == [Tilde] + rest || path == [Tilde, Slash] + rest
    ensures |rest| > 0 ==> path == [Tilde] + rest ==> rest[0] != Slash
  {
    if |path| > 1 && path[1] == Slash then
      assert path == [Tilde, Slash] + path[2..];
      path[2..]
    else
      assert path == [Tilde] + path[1..];
      path[1..]
  }

  /** Index of the last `/` of p, or -1 when there is none (strrchr). */
  function LastSlash(p: seq<byte>): (k: int)
    ensures -1 <= k < |p|
    ensures k == -1 <==> Slash !in p
    ensures k >= 0 ==> p[k] == Slash && Slash !in p[k + 1..]
  {
    if |p| == 0 then -1
    else if p[|p| - 1] == Slash then
      assert p[|p|..] == [];
      |p| - 1
    else
      var k := LastSlash(p[..|p| - 1]);
      assert p == p[..|p| - 1] + [p[|p| - 1]];
      assert k >= 0 ==> p[k + 1..] == p[..|p| - 1][k + 1..] + [p[|p| - 1]];
      k
  }

  /** splitPath: the directory part and the base name of a path. */
  function SplitPath(full: seq<byte>): (r: (seq<byte>, seq<byte>))
    ensures Slash in full ==> r.0 + [Slash] + r.1 == full && Slash !in r.1
    ensures Slash !in full ==> r == (DotName, full)
  {
    var k := LastSlash(full);
    if k == -1 then (DotName, full)
    else
      assert full == full[..k] + [Slash] + full[k + 1..];
      (full[..k], full[k + 1..])
  }

  /** The split is unique: a directory part, a `/` and a slash-free base name determine the
      result, so splitPath recovers them from their concatenation. */
  lemma SplitPathJoin(dir: seq<byte>, base: seq<byte>)
    requires Slash !in base
    ensures SplitPath(dir + [Slash] + base) == (dir, base)
  {
    var full := dir + [Slash] + base;
    var k := LastSlash(full);
    assert full[|dir|] == Slash;
    assert full[|dir| + 1..] == base;
    assert k == |dir|;
    assert full[..k] == dir;
    assert full[k + 1..] == base;
  }
}
