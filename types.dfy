/** Constants, scalar types and on-disk records of the filesystem image (fs.h:13-74). */
module FsTypes {

  const DiskSizeMb: nat := 64
  const MaxInodes: nat := 128
  const BlockSize: nat := 512
  const BlocksPerInode: nat := 12
  const MaxBlocks: nat := (DiskSizeMb * 1024 * 1024) / BlockSize
  const MaxNameSize: nat := 32
  const RootInode: nat := 0
  const RootUid: nat := 0
  const FsMagic: nat := 0xF5F5F5F5

  const Uint32Modulus: nat := 0x1_0000_0000

  /** An unsigned char of the disk image or of a C string. */
  type byte = x: int | 0 <= x < 256

  /** The uint32_t fields of the header, of inodes and of directory entries. */
  type uint32 = x: int | 0 <= x < 0x1_0000_0000

  /** n zero bytes. */
  function Zeros(n: nat): (z: seq<byte>)
    ensures |z| == n && forall i :: 0 <= i < n ==> z[i] == 0
  {
    seq(n, _ => 0)
  }

  /** One data block of BLOCK_SIZE bytes. */
  type Block = b: seq<byte> | |b| == BlockSize witness Zeros(512)

  const ZeroBlock: Block := Zeros(BlockSize)

  function ZeroSlots(n: nat): (z: seq<uint32>)
    ensures |z| == n && forall i :: 0 <= i < n ==> z[i] == 0
  {
    seq(n, _ => 0)
  }

  /** The twelve direct block numbers of an inode; 0 marks an unused slot. */
  type BlockSlots = s: seq<uint32> | |s| == BlocksPerInode witness ZeroSlots(12)

  const NoBlocks: BlockSlots := ZeroSlots(BlocksPerInode)

  /** inode_type_t; the zero value of the C enum is FILE_REGULAR.  AnyType (FILE_ANY) only
      appears as a lookup request, never as the type of a stored inode written by the engine. */
  datatype InodeType = Regular | Directory | Symlink | AnyType

  /** inode_t.  The name is the content of the NUL-terminated name[32] field; permission_t
      is an int-sized bit set. */
  datatype Inode = Inode(
    kind: InodeType,
    name: seq<byte>,
    creatorUid: uint32,
    ownerUid: uint32,
    size: uint32,
    created: int,
    modified: int,
    permissions: bv32,
    blocks: BlockSlots,
    nextInode: uint32,
    linkTarget: uint32)

  /** The record memset to zero by allocateInode and freeInode. */
  const ZeroInode: Inode := Inode(Regular, [], 0, 0, 0, 0, 0, 0, NoBlocks, 0, 0)

  /** The source reports every failure as -1; the model names the reason, and no caller in
      the model branches on the reason where the source could not. */
  datatype Error =
    | BadArgument       // index out of range on entry
    | NameTooLong       // name of MAX_NAMESIZE or more bytes given to dirFindEntry
    | NotFound
    | AlreadyExists
    | PermissionDenied
    | OutOfSpace        // allocateBlock returned -1
    | OutOfInodes       // allocateInode returned -1
    | NotDirectory      // a chained inode walked as a directory is not one
    | WrongType
    | NotEmpty
    | SymlinkLoop       // more than 16 symlink hops
    | IoError           // readBlock/writeBlock refused the block index
    | BufferTooSmall
    | BadIndex          // a stored index that the source would use out of range
    | Diverges          // a walk the source would repeat for ever
    | Corrupt           // header magic mismatch

  datatype Result<T> = Ok(value: T) | Err(error: Error)

  datatype Outcome = Success | Failure(error: Error)

  datatype Option<T> = None | Some(value: T)

  /** Conversion of a uint32 to a 32-bit int, as in `int block = inode->blocks[i]`. */
  function AsInt32(x: uint32): (r: int)
    ensures -0x8000_0000 <= r < 0x8000_0000
    ensures r >= 0 <==> x < 0x8000_0000
    ensures r % Uint32Modulus == x
  {
    if x < 0x8000_0000 then x else x - Uint32Modulus
  }

  /** Unsigned 32-bit wrap-around of an arithmetic result. */
  function Wrap32(x: int): (r: uint32)
    ensures 0 <= x < Uint32Modulus ==> r == x
    ensures (r - x) % Uint32Modulus == 0
  {
    x % Uint32Modulus
  }

  /** A C string holds no NUL byte. */
  predicate NoNul(s: seq<byte>) {
    forall k :: 0 <= k < |s| ==> s[k] != 0
  }

  /** `strncpy(dst, name, MAX_NAMESIZE - 1); dst[MAX_NAMESIZE - 1] = '\0'` keeps at most 31 bytes. */
  function Truncate(name: seq<byte>): (r: seq<byte>)
    ensures |r| < MaxNameSize
    ensures |name| < MaxNameSize ==> r == name
    ensures |name| >= MaxNameSize ==> |r| == MaxNameSize - 1
    ensures r == name[..|r|]
  {
    if |name| < MaxNameSize then name else name[..MaxNameSize - 1]
  }

  function Min(a: int, b: int): int {
    if a <= b then a else b
  }

  /** A second update of the same position overrides the first. */
  lemma UpdateTwice<T>(q: seq<T>, i: nat, a: T, b: T)
    requires i < |q|
    ensures q[i := a][i := b] == q[i := b]
  {
  }

  const Slash: byte := '/' as byte
  const Dot: byte := '.' as byte
  const Tilde: byte := '~' as byte
  const DotName: seq<byte> := [Dot]
  const DotDotName: seq<byte> := [Dot, Dot]
}
