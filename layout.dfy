/** Layout of the disk image and its header (fs.c:33-62, fs.c:102-112, fs.c:158-173). */
module Layout {
  import opened FsTypes

  /** sizeof(fs_header_t): ten uint32_t fields. */
  const HeaderBytes: nat := 40

  /** sizeof(inode_t) on an LP64 target: the two time_t fields are 8-byte aligned, which puts
      the record at 124 bytes of fields padded to 128. */
  const InodeRecordBytes: nat := 128

  const DiskBytes: nat := DiskSizeMb * 1024 * 1024

  /** The layout globals that compute_layout assigns and the header records. */
  datatype Layout = Layout(
    blockBitmapBytes: nat,
    inodeBitmapBytes: nat,
    inodeTableBytes: nat,
    metaBlocks: nat,
    dataBlocks: nat,
    offBlockBitmap: nat,
    offInodeBitmap: nat,
    offInodeTable: nat,
    offDataRegion: nat)

  /** `(a + b - 1) / b`, the ceiling division the source writes out. */
  function CeilDiv(a: nat, b: nat): (q: nat)
    requires b > 0
    ensures q * b >= a
    ensures q > 0 ==> (q - 1) * b < a
  {
    var q := (a + b - 1) / b;
    assert (a + b - 1) == q * b + (a + b - 1) % b;
    q
  }

  /** compute_layout for a disk of totalBlocks blocks and an inode table of MAX_INODES records.
      The block bitmap is sized for every block of the disk, the metadata block count ignores
      the header, and the inode table is followed by padding up to the next block boundary. */
  function LayoutFor(totalBlocks: nat): (l: Layout)
    requires CeilDiv(CeilDiv(totalBlocks, 8) + CeilDiv(MaxInodes, 8) + MaxInodes * InodeRecordBytes, BlockSize) <= totalBlocks
    // each bitmap holds one bit per unit and no spare byte
    ensures l.blockBitmapBytes * 8 >= totalBlocks && (l.blockBitmapBytes > 0 ==> (l.blockBitmapBytes - 1) * 8 < totalBlocks)
    ensures l.inodeBitmapBytes * 8 >= MaxInodes && (l.inodeBitmapBytes > 0 ==> (l.inodeBitmapBytes - 1) * 8 < MaxInodes)
    ensures l.inodeTableBytes == MaxInodes * InodeRecordBytes
    // the metadata blocks are the fewest that hold both bitmaps and the inode table
    ensures l.metaBlocks * BlockSize >= l.blockBitmapBytes + l.inodeBitmapBytes + l.inodeTableBytes
    ensures l.metaBlocks > 0 ==> (l.metaBlocks - 1) * BlockSize < l.blockBitmapBytes + l.inodeBitmapBytes + l.inodeTableBytes
    ensures l.dataBlocks + l.metaBlocks == totalBlocks
    // the regions follow the header back to back
    ensures l.offBlockBitmap == HeaderBytes
    ensures l.offInodeBitmap == l.offBlockBitmap + l.blockBitmapBytes
    ensures l.offInodeTable == l.offInodeBitmap + l.inodeBitmapBytes
    // the data region starts at the first block boundary at or after the inode table's end
    ensures l.offDataRegion % BlockSize == 0
    ensures l.offInodeTable + l.inodeTableBytes <= l.offDataRegion < l.offInodeTable + l.inodeTableBytes + BlockSize
  {
    var inodeBmapBytes := CeilDiv(MaxInodes, 8);
    var inodeTblBytes := MaxInodes * InodeRecordBytes;
    var bmapBytes := CeilDiv(totalBlocks, 8);
    var metaBlocks := CeilDiv(bmapBytes + inodeBmapBytes + inodeTblBytes, BlockSize);
    var offBlockBitmap := HeaderBytes;
    var offInodeBitmap := offBlockBitmap + bmapBytes;
    var offInodeTable := offInodeBitmap + inodeBmapBytes;
    var tableEnd := offInodeTable + inodeTblBytes;
    var dataStart := CeilDiv(tableEnd, BlockSize);
    var offDataRegion := dataStart * BlockSize;
    assert offDataRegion < tableEnd + BlockSize by {
      if dataStart > 0 { assert (dataStart - 1) * BlockSize == offDataRegion - BlockSize; }
    }
    Layout(bmapBytes, inodeBmapBytes, inodeTblBytes, metaBlocks, totalBlocks - metaBlocks,
           offBlockBitmap, offInodeBitmap, offInodeTable, offDataRegion)
  }

  /** The layout of the configured 64 MiB image with 128 inodes. */
  function ComputeLayout(): (l: Layout)
    ensures l.dataBlocks == MaxBlocks - l.metaBlocks
    ensures l.metaBlocks == 65 && l.dataBlocks == 131007
    // the header is not counted in the metadata blocks; with these sizes the padding absorbs it
    ensures l.offDataRegion == l.metaBlocks * BlockSize
    // the data region ends exactly at the end of the image
    ensures l.offDataRegion + l.dataBlocks * BlockSize == DiskBytes
    ensures l.blockBitmapBytes * 8 >= l.dataBlocks
  {
    var l := LayoutFor(MaxBlocks);
    assert l.blockBitmapBytes == 16384 && l.inodeBitmapBytes == 16 && l.inodeTableBytes == 16384;
    assert l.metaBlocks == 65;
    assert l.offDataRegion == 33280;
    l
  }

  /** fs_header_t. */
  datatype Header = Header(
    magic: uint32,
    blockBitmapBytes: uint32,
    inodeBitmapBytes: uint32,
    inodeTableBytes: uint32,
    metaBlocks: uint32,
    dataBlocks: uint32,
    offBlockBitmap: uint32,
    offInodeBitmap: uint32,
    offInodeTable: uint32,
    offDataRegion: uint32)

  predicate FitsHeader(l: Layout) {
    && l.blockBitmapBytes < Uint32Modulus && l.inodeBitmapBytes < Uint32Modulus
    && l.inodeTableBytes < Uint32Modulus && l.metaBlocks < Uint32Modulus
    && l.dataBlocks < Uint32Modulus && l.offBlockBitmap < Uint32Modulus
    && l.offInodeBitmap < Uint32Modulus && l.offInodeTable < Uint32Modulus
    && l.offDataRegion < Uint32Modulus
  }

  /** The header init_fs writes at offset 0. */
  function HeaderOf(l: Layout): (h: Header)
    requires FitsHeader(l)
    ensures h.magic == FsMagic
  {
    Header(FsMagic, l.blockBitmapBytes, l.inodeBitmapBytes, l.inodeTableBytes, l.metaBlocks,
           l.dataBlocks, l.offBlockBitmap, l.offInodeBitmap, l.offInodeTable, l.offDataRegion)
  }

  /** The header check of mount_fs: a header with another magic is refused; otherwise the
      layout globals are restored from the header fields, which are exactly the ones a header
      written by init_fs records. */
  function Mount(h: Header): (r: Result<Layout>)
    ensures r.Err? <==> h.magic != FsMagic
    ensures r.Err? ==> r.error == Corrupt
    ensures r.Ok? ==> FitsHeader(r.value) && HeaderOf(r.value) == h
  {
    if h.magic != FsMagic then Err(Corrupt)
    else Ok(Layout(h.blockBitmapBytes, h.inodeBitmapBytes, h.inodeTableBytes, h.metaBlocks,
                   h.dataBlocks, h.offBlockBitmap, h.offInodeBitmap, h.offInodeTable, h.offDataRegion))
  }

  /** Mounting the header that init_fs wrote gives back the layout init_fs computed. */
  lemma MountRestoresLayout(l: Layout)
    requires FitsHeader(l)
    ensures Mount(HeaderOf(l)) == Ok(l)
  {
  }

  lemma ComputedLayoutFitsHeader()
    ensures FitsHeader(ComputeLayout())
    ensures Mount(HeaderOf(ComputeLayout())) == Ok(ComputeLayout())
  {
  }
}
