/** The on-disk directory entry dir_entry_t: a 32-byte NUL-padded name followed by a 32-bit
    little-endian inode index, 36 bytes in all, packed 14 to a 512-byte block from offset 0
    (fs.h:71-74).  The last 8 bytes of a directory block belong to no entry. */
module DirEntry {
  import opened FsTypes

  const NameFieldBytes: nat := MaxNameSize
  const EntryBytes: nat := NameFieldBytes + 4
  const EntriesPerBlock: nat := BlockSize / EntryBytes

  lemma EntriesFit()
    ensures EntriesPerBlock == 14 && EntriesPerBlock * EntryBytes == 504
  {
  }

  /** The C string held in a fixed field: its bytes up to the first NUL, or the whole field. */
  function CString(f: seq<byte>): (r: seq<byte>)
    ensures NoNul(r)
    ensures |r| <= |f| && r == f[..|r|]
    ensures |r| < |f| ==> f[|r|] == 0
  {
    if |f| == 0 || f[0] == 0 then []
    else
      var t := CString(f[1..]);
      assert [f[0]] + t == f[..1 + |t|];
      [f[0]] + t
  }

  /** A name shorter than the field reads back from itself padded with NULs. */
  lemma {:induction false} CStringOfPadded(name: seq<byte>, pad: nat)
    requires NoNul(name)
    ensures CString(name + Zeros(pad)) == name
    decreases |name|
  {
    var f := name + Zeros(pad);
    if |name| == 0 {
      assert f == Zeros(pad);
    } else {
      assert f[0] == name[0] != 0;
      assert f[1..] == name[1..] + Zeros(pad);
      CStringOfPadded(name[1..], pad);
      assert name == [name[0]] + name[1..];
    }
  }

  /** Bytes 36j .. 36j+35 of a block: entry j. */
  function Record(b: Block, j: nat): (r: seq<byte>)
    requires j < EntriesPerBlock
    ensures |r| == EntryBytes
  {
    b[EntryBytes * j .. EntryBytes * j + EntryBytes]
  }

  lemma SliceOfSlice(s: seq<byte>, lo: nat, hi: nat, a: nat, b: nat)
    requires lo <= hi <= |s| && a <= b <= hi - lo
    ensures s[lo..hi][a..b] == s[lo + a .. lo + b]
  {
    assert forall i :: 0 <= i < b - a ==> s[lo..hi][a..b][i] == s[lo + a + i];
  }

  /** The little-endian uint32 of four bytes. */
  function DecodeU32(q: seq<byte>): (x: uint32)
    requires |q| == 4
  {
    var b0: int, b1: int, b2: int, b3: int := q[0], q[1], q[2], q[3];
    b0 + 256 * b1 + 65536 * b2 + 16777216 * b3
  }

  function EncodeU32(x: uint32): (q: seq<byte>)
    ensures |q| == 4
    ensures DecodeU32(q) == x
  {
    var x1 := x / 256;
    var x2 := x1 / 256;
    var x3 := x2 / 256;
    assert x == x % 256 + 256 * x1;
    assert x1 == x1 % 256 + 256 * x2;
    assert x2 == x2 % 256 + 256 * x3;
    assert x3 < 256;
    [x % 256, x1 % 256, x2 % 256, x3]
  }

  lemma DecodeZeroU32()
    ensures DecodeU32([0, 0, 0, 0]) == 0
  {
  }

  /** The name of entry j as strcmp sees it. */
  function EntryName(b: Block, j: nat): (name: seq<byte>)
    requires j < EntriesPerBlock
    ensures NoNul(name) && |name| <= NameFieldBytes
  {
    CString(Record(b, j)[..NameFieldBytes])
  }

  /** The inode_index of entry j; 0 marks a free entry. */
  function EntryIndex(b: Block, j: nat): uint32
    requires j < EntriesPerBlock
  {
    DecodeU32(Record(b, j)[NameFieldBytes..])
  }

  /** The name field that `strncpy(name, src, 31); name[31] = '\0'` leaves. */
  function NameField(name: seq<byte>): (f: seq<byte>)
    ensures |f| == NameFieldBytes
  {
    Truncate(name) + Zeros(NameFieldBytes - |Truncate(name)|)
  }

  lemma NameFieldRead(name: seq<byte>)
    requires NoNul(name)
    ensures CString(NameField(name)) == Truncate(name)
  {
    var t := Truncate(name);
    assert NoNul(t);
    CStringOfPadded(t, NameFieldBytes - |t|);
  }

  /** A block with entry j replaced by (name, index) and every other byte kept. */
  function PutEntry(b: Block, j: nat, name: seq<byte>, index: uint32): (r: Block)
    requires j < EntriesPerBlock
    ensures Record(r, j) == NameField(name) + EncodeU32(index)
  {
    var r := b[..EntryBytes * j] + NameField(name) + EncodeU32(index) + b[EntryBytes * j + EntryBytes..];
    assert r[EntryBytes * j .. EntryBytes * j + EntryBytes] == NameField(name) + EncodeU32(index);
    r
  }

  /** The block after `inode_index = 0; name[0] = '\0'` on entry j. */
  function ClearEntry(b: Block, j: nat): (r: Block)
    requires j < EntriesPerBlock
    ensures Record(r, j) == [0] + Record(b, j)[1..NameFieldBytes] + [0, 0, 0, 0]
  {
    var base := EntryBytes * j;
    var mid: seq<byte> := [0] + b[base + 1 .. base + NameFieldBytes] + [0, 0, 0, 0];
    assert |mid| == EntryBytes;
    var r := b[..base] + mid + b[base + EntryBytes..];
    assert r[base .. base + EntryBytes] == mid;
    SliceOfSlice(b, base, base + EntryBytes, 1, NameFieldBytes);
    r
  }

  /** Entries other than j do not overlap entry j. */
  lemma RecordFramed(b: Block, r: Block, j: nat, k: nat)
    requires j < EntriesPerBlock && k < EntriesPerBlock && k != j
    requires forall i :: 0 <= i < BlockSize && !(EntryBytes * j <= i < EntryBytes * j + EntryBytes) ==> r[i] == b[i]
    ensures Record(r, k) == Record(b, k)
  {
    forall i | 0 <= i < EntryBytes
      ensures Record(r, k)[i] == Record(b, k)[i]
    {
      assert Record(r, k)[i] == r[EntryBytes * k + i];
      assert Record(b, k)[i] == b[EntryBytes * k + i];
    }
  }

  /** Writing entry j reads back the truncated name and the index, and leaves other entries. */
  lemma PutEntryRead(b: Block, j: nat, name: seq<byte>, index: uint32, k: nat)
    requires j < EntriesPerBlock && k < EntriesPerBlock && NoNul(name)
    ensures k == j ==> EntryName(PutEntry(b, j, name, index), k) == Truncate(name)
    ensures k == j ==> EntryIndex(PutEntry(b, j, name, index), k) == index
    ensures k != j ==> Record(PutEntry(b, j, name, index), k) == Record(b, k)
  {
    var r := PutEntry(b, j, name, index);
    if k == j {
      assert Record(r, j)[..NameFieldBytes] == NameField(name);
      NameFieldRead(name);
      assert Record(r, j)[NameFieldBytes..] == EncodeU32(index);
    } else {
      forall i | 0 <= i < BlockSize && !(EntryBytes * j <= i < EntryBytes * j + EntryBytes)
        ensures r[i] == b[i]
      {
        if i >= EntryBytes * j + EntryBytes {
          assert r[i] == b[EntryBytes * j + EntryBytes..][i - EntryBytes * j - EntryBytes];
        }
      }
      RecordFramed(b, r, j, k);
    }
  }

  /** Clearing entry j frees it, empties its name, and leaves other entries. */
  lemma ClearEntryRead(b: Block, j: nat, k: nat)
    requires j < EntriesPerBlock && k < EntriesPerBlock
    ensures k == j ==> EntryName(ClearEntry(b, j), k) == [] && EntryIndex(ClearEntry(b, j), k) == 0
    ensures k != j ==> Record(ClearEntry(b, j), k) == Record(b, k)
  {
    var r := ClearEntry(b, j);
    if k == j {
      assert Record(r, j)[..NameFieldBytes][0] == 0;
      assert Record(r, j)[NameFieldBytes..] == [0, 0, 0, 0];
    } else {
      forall i | 0 <= i < BlockSize && !(EntryBytes * j <= i < EntryBytes * j + EntryBytes)
        ensures r[i] == b[i]
      {
        if i >= EntryBytes * j + EntryBytes {
          assert r[i] == b[EntryBytes * j + EntryBytes..][i - EntryBytes * j - EntryBytes];
        }
      }
      RecordFramed(b, r, j, k);
    }
  }

  /** Every entry of a zeroed block is free and nameless. */
  lemma ZeroBlockEntries(j: nat)
    requires j < EntriesPerBlock
    ensures EntryName(ZeroBlock, j) == [] && EntryIndex(ZeroBlock, j) == 0
  {
    assert Record(ZeroBlock, j)[0] == 0;
    assert Record(ZeroBlock, j)[NameFieldBytes..] == [0, 0, 0, 0];
  }

  /** The block createDirectory writes into a new directory's blocks[0]: `.` naming the
      directory itself and `..` naming its parent, every other byte zero. */
  function DotBlock(dir: uint32, parent: uint32): Block {
    PutEntry(PutEntry(ZeroBlock, 0, DotName, dir), 1, DotDotName, parent)
  }

  lemma DotBlockEntries(dir: uint32, parent: uint32, k: nat)
    requires k < EntriesPerBlock
    ensures k == 0 ==> EntryName(DotBlock(dir, parent), k) == DotName && EntryIndex(DotBlock(dir, parent), k) == dir
    ensures k == 1 ==> EntryName(DotBlock(dir, parent), k) == DotDotName && EntryIndex(DotBlock(dir, parent), k) == parent
    ensures k >= 2 ==> EntryName(DotBlock(dir, parent), k) == [] && EntryIndex(DotBlock(dir, parent), k) == 0
  {
    var b0 := PutEntry(ZeroBlock, 0, DotName, dir);
    PutEntryRead(ZeroBlock, 0, DotName, dir, k);
    PutEntryRead(b0, 1, DotDotName, parent, k);
    if k >= 2 { ZeroBlockEntries(k); }
  }
}
