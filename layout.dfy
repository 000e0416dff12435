/**
 * The on-disk layout jfs_mount computes when the superblock has no magic
 * number: superblock, inode bitmap, data bitmap, inode table, data blocks,
 * in that order, all offsets in bytes.
 */
module Layout {

  import opened Types
  import Arith

  /** sizeof(struct juzfs_super_d) on an LP64 target: eleven fields, 80 bytes with padding. */
  const SUPER_RECORD_SIZE: nat := 80

  /** The geometry fields of struct juzfs_super_d that formatting fills in. */
  datatype Layout = Layout(
    szUsage: nat,
    maxIno: nat,
    mapInodeBlks: nat,
    mapInodeOffset: nat,
    maxDataBlks: nat,
    mapDataBlks: nat,
    mapDataOffset: nat,
    inoListBlks: nat,
    inoListOffset: nat,
    dataOffset: nat)

  function SuperBlks(ioSz: nat): nat
    requires ioSz > 0
  {
    RoundUp(SUPER_RECORD_SIZE, BlkSz(ioSz)) / BlkSz(ioSz)
  }

  /** Bytes one file needs at most: one inode block and six data blocks. */
  function PerFileBytes(ioSz: nat): (r: nat)
    ensures ioSz > 0 ==> r > 0
  {
    // (JFS_DATA_PER_FILE + JFS_INODE_PER_FILE) blocks
    7 * BlkSz(ioSz)
  }

  /** Blocks of a bitmap with `bits` bits, rounded up to whole 32-bit words, then to whole blocks. */
  function MapBlks(bits: nat, ioSz: nat): nat
    requires ioSz > 0
  {
    RoundUp(RoundUp(bits, UINT32_BITS), BlkSz(ioSz)) / BlkSz(ioSz)
  }

  /** The first estimate: as many files as fit if the disk held only inodes and data. */
  function InodeEstimate(szDisk: nat, ioSz: nat): nat
    requires ioSz > 0
  {
    Arith.DivBound(szDisk, PerFileBytes(ioSz));
    szDisk / PerFileBytes(ioSz)
  }

  /** Blocks taken by the superblock and both bitmaps, sized from the estimate. */
  function MetaBlks(szDisk: nat, ioSz: nat): nat
    requires ioSz > 0
  {
    var estimate := InodeEstimate(szDisk, ioSz);
    SuperBlks(ioSz) + MapBlks(estimate, ioSz)
      + MapBlks(estimate / JFS_INODE_PER_FILE * JFS_DATA_PER_FILE, ioSz)
  }

  /**
   * A geometry for which the computation neither divides by zero nor lets the
   * unsigned subtraction of the metadata size from the disk size wrap around.
   */
  predicate FormatFits(szDisk: nat, ioSz: nat)
  {
    ioSz > 0 && MetaBlks(szDisk, ioSz) * BlkSz(ioSz) <= szDisk
  }

  /** The layout jfs_mount writes into the superblock record on a fresh disk. */
  function Format(szDisk: nat, ioSz: nat): Layout
    requires FormatFits(szDisk, ioSz)
  {
    var blk := BlkSz(ioSz);
    var superBlks := SuperBlks(ioSz);
    var estimate := InodeEstimate(szDisk, ioSz);
    var mapInodeBlks := MapBlks(estimate, ioSz);
    var mapDataBlks := MapBlks(estimate / JFS_INODE_PER_FILE * JFS_DATA_PER_FILE, ioSz);
    var meta := superBlks + mapInodeBlks + mapDataBlks;
    assert meta == MetaBlks(szDisk, ioSz);
    Arith.DivBound(szDisk - meta * blk, PerFileBytes(ioSz));
    var inodeNum := (szDisk - meta * blk) / PerFileBytes(ioSz);
    var dataBlkNum := (inodeNum / JFS_INODE_PER_FILE) * JFS_DATA_PER_FILE;
    var mapInodeOffset := 0 + BlksSz(superBlks, ioSz);
    var mapDataOffset := mapInodeOffset + BlksSz(mapInodeBlks, ioSz);
    var inoListOffset := mapDataOffset + BlksSz(mapDataBlks, ioSz);
    var dataOffset := inoListOffset + BlksSz(inodeNum, ioSz);
    Layout(0, inodeNum, mapInodeBlks, mapInodeOffset, dataBlkNum, mapDataBlks,
           mapDataOffset, inodeNum, inoListOffset, dataOffset)
  }

  /** The final inode count after the metadata is carved out of the disk. */
  function InodeCount(szDisk: nat, ioSz: nat): nat
    requires FormatFits(szDisk, ioSz)
  {
    Arith.DivBound(szDisk - MetaBlks(szDisk, ioSz) * BlkSz(ioSz), PerFileBytes(ioSz));
    (szDisk - MetaBlks(szDisk, ioSz) * BlkSz(ioSz)) / PerFileBytes(ioSz)
  }

  lemma FormatIsInodeCount(szDisk: nat, ioSz: nat)
    requires FormatFits(szDisk, ioSz)
    ensures Format(szDisk, ioSz).maxIno == InodeCount(szDisk, ioSz)
  {
  }

  /**
   * Counts: one inode-table block per inode, six data blocks per inode, and an
   * empty usage counter.
   */
  lemma FormatCounts(szDisk: nat, ioSz: nat)
    requires FormatFits(szDisk, ioSz)
    ensures var l := Format(szDisk, ioSz);
      l.inoListBlks == l.maxIno && l.maxDataBlks == JFS_DATA_PER_FILE * l.maxIno && l.szUsage == 0
  {
  }

  lemma RoundUpPositive(value: nat, round: nat)
    requires round > 0 && value > 0
    ensures RoundUp(value, round) >= round
    ensures RoundUp(value, round) / round >= 1
  {
    var r := RoundUp(value, round);
    Arith.DivModUnique(r, round, r / round, 0);
    Arith.MulAtLeast(r / round, round);
  }

  /** A bitmap of MapBlks blocks holds at least `bits` bits. */
  lemma {:induction false} MapBlksCover(bits: nat, ioSz: nat)
    requires ioSz > 0
    ensures MapBlks(bits, ioSz) * BlkSz(ioSz) * UINT8_BITS >= bits
    ensures bits > 0 ==> MapBlks(bits, ioSz) >= 1
  {
    var blk := BlkSz(ioSz);
    var words := RoundUp(bits, UINT32_BITS);
    var r := RoundUp(words, blk);
    Arith.DivModUnique(r, blk, r / blk, 0);
    assert MapBlks(bits, ioSz) * blk == r;
    assert r >= bits;
    if bits > 0 {
      RoundUpPositive(words, blk);
    }
  }

  /** The superblock region holds the whole superblock record. */
  lemma SuperRegionHoldsRecord(ioSz: nat)
    requires ioSz > 0
    ensures SuperBlks(ioSz) >= 1
    ensures BlksSz(SuperBlks(ioSz), ioSz) >= SUPER_RECORD_SIZE
  {
    var blk := BlkSz(ioSz);
    var r := RoundUp(SUPER_RECORD_SIZE, blk);
    Arith.DivModUnique(r, blk, r / blk, 0);
    RoundUpPositive(SUPER_RECORD_SIZE, blk);
  }

  /**
   * The regions follow each other in the order superblock, inode bitmap, data
   * bitmap, inode table, data; each starts where the previous one ends, and
   * all of them are non-empty once the disk holds at least one inode.
   */
  lemma FormatRegionOrder(szDisk: nat, ioSz: nat)
    requires FormatFits(szDisk, ioSz)
    ensures var l := Format(szDisk, ioSz);
      && l.mapInodeOffset == BlksSz(SuperBlks(ioSz), ioSz) >= SUPER_RECORD_SIZE
      && l.mapDataOffset == l.mapInodeOffset + BlksSz(l.mapInodeBlks, ioSz)
      && l.inoListOffset == l.mapDataOffset + BlksSz(l.mapDataBlks, ioSz)
      && l.dataOffset == l.inoListOffset + BlksSz(l.inoListBlks, ioSz)
      && (l.maxIno > 0 ==> l.mapInodeOffset < l.mapDataOffset < l.inoListOffset < l.dataOffset)
  {
    var l := Format(szDisk, ioSz);
    var blk := BlkSz(ioSz);
    SuperRegionHoldsRecord(ioSz);
    if l.maxIno > 0 {
      var estimate := InodeEstimate(szDisk, ioSz);
      Arith.DivMonotone(szDisk - MetaBlks(szDisk, ioSz) * blk, szDisk, PerFileBytes(ioSz));
      assert estimate >= l.maxIno;
      MapBlksCover(estimate, ioSz);
      MapBlksCover(estimate / JFS_INODE_PER_FILE * JFS_DATA_PER_FILE, ioSz);
      Arith.MulAtLeast(l.mapInodeBlks, blk);
      Arith.MulAtLeast(l.mapDataBlks, blk);
      Arith.MulAtLeast(l.inoListBlks, blk);
    }
  }

  /** The inode and data bitmaps have a bit for every inode and every data block. */
  lemma FormatBitmapsCover(szDisk: nat, ioSz: nat)
    requires FormatFits(szDisk, ioSz)
    ensures var l := Format(szDisk, ioSz);
      && BlksSz(l.mapInodeBlks, ioSz) * UINT8_BITS >= l.maxIno
      && BlksSz(l.mapDataBlks, ioSz) * UINT8_BITS >= l.maxDataBlks
  {
    var l := Format(szDisk, ioSz);
    var estimate := InodeEstimate(szDisk, ioSz);
    Arith.DivMonotone(szDisk - MetaBlks(szDisk, ioSz) * BlkSz(ioSz), szDisk, PerFileBytes(ioSz));
    MapBlksCover(estimate, ioSz);
    MapBlksCover(estimate / JFS_INODE_PER_FILE * JFS_DATA_PER_FILE, ioSz);
  }

  lemma FitsArithmetic(szDisk: int, s: int, a: int, b: int, n: int, blk: int)
    requires blk > 0 && n >= 0
    requires n * (7 * blk) <= szDisk - (s + a + b) * blk < (n + 1) * (7 * blk)
    ensures s * blk + a * blk + b * blk + n * blk + (n * 6) * blk <= szDisk
    ensures s * blk + a * blk + b * blk + n * blk + (n * 6) * blk + 7 * blk > szDisk
  {
    assert (s + a + b) * blk == s * blk + a * blk + b * blk;
    assert n * (7 * blk) == n * blk + (n * 6) * blk;
    assert (n + 1) * (7 * blk) == n * (7 * blk) + 7 * blk;
  }

  /**
   * Everything fits on the disk, and the inode count is the largest that
   * does: one more file's inode block and data blocks would overflow it.
   */
  lemma FormatFitsDisk(szDisk: nat, ioSz: nat)
    requires FormatFits(szDisk, ioSz)
    ensures var l := Format(szDisk, ioSz);
      && l.dataOffset + BlksSz(l.maxDataBlks, ioSz) <= szDisk
      && l.dataOffset + BlksSz(l.maxDataBlks, ioSz) + PerFileBytes(ioSz) > szDisk
  {
    var l := Format(szDisk, ioSz);
    var blk := BlkSz(ioSz);
    var estimate := InodeEstimate(szDisk, ioSz);
    var s, a, b := SuperBlks(ioSz), l.mapInodeBlks, l.mapDataBlks;
    assert MetaBlks(szDisk, ioSz) == s + a + b;
    Arith.DivBound(szDisk - (s + a + b) * blk, PerFileBytes(ioSz));
    FitsArithmetic(szDisk, s, a, b, l.maxIno, blk);
  }

  // ---------------------------------------------------------------------------
  // Inode table slots
  // ---------------------------------------------------------------------------

  /**
   * JFS_INO_OFS scales `ino_list_offset` by the block size although Format
   * stores it in bytes: on a 4 MiB disk with 512-byte I/O units the table
   * starts at byte 6144, and the slot of the root inode is computed as byte
   * 6291456, past the end of the disk.
   */
  lemma InoOfsPastDisk()
    ensures FormatFits(4194304, 512)
    ensures var l := Format(4194304, 512);
      && l.inoListOffset == 6144
      && InoOfs(l.inoListOffset, JFS_ROOT_INO, 512) == 6291456 > 4194304
  {
    SmallDiskMeta();
    var l := Format(4194304, 512);
    assert l.inoListOffset == 1024 + 1024 + 4096;
  }

  lemma SmallDiskMeta()
    ensures SuperBlks(512) == 1 && InodeEstimate(4194304, 512) == 585
    ensures MapBlks(585, 512) == 1 && MapBlks(3510, 512) == 4
    ensures MetaBlks(4194304, 512) == 6
  {
    assert RoundUp(80, 1024) == 1024;
    assert RoundUp(585, 32) == 608;
    assert RoundUp(608, 1024) == 1024;
    assert RoundUp(3510, 32) == 3520;
    assert RoundUp(3520, 1024) == 4096;
  }

  /** The slot of inode `ino` with the table offset taken as the byte offset it is. */
  function IntendedInoOfs(inoListOffset: nat, ino: nat, ioSz: nat): nat
  {
    inoListOffset + BlksSz(ino, ioSz)
  }

  /**
   * With the byte offset, every inode number below `max_ino` gets a whole
   * block inside the inode table, which ends where the data region starts,
   * and distinct numbers get disjoint blocks.
   */
  lemma IntendedInoSlotsInTable(szDisk: nat, ioSz: nat, a: nat, b: nat)
    requires FormatFits(szDisk, ioSz)
    requires a < b < Format(szDisk, ioSz).maxIno
    ensures var l := Format(szDisk, ioSz);
      && l.inoListOffset <= IntendedInoOfs(l.inoListOffset, a, ioSz)
      && IntendedInoOfs(l.inoListOffset, a, ioSz) + BlkSz(ioSz) <= IntendedInoOfs(l.inoListOffset, b, ioSz)
      && IntendedInoOfs(l.inoListOffset, b, ioSz) + BlkSz(ioSz) <= l.dataOffset <= szDisk
  {
    var l := Format(szDisk, ioSz);
    var blk := BlkSz(ioSz);
    FormatRegionOrder(szDisk, ioSz);
    FormatFitsDisk(szDisk, ioSz);
    SlotArithmetic(a, b, l.maxIno, l.maxDataBlks, blk);
  }

  lemma SlotArithmetic(a: nat, b: nat, n: nat, d: nat, blk: nat)
    requires a < b < n
    ensures a * blk >= 0 && a * blk + blk <= b * blk && b * blk + blk <= n * blk && d * blk >= 0
  {
    Arith.MulNonNeg(a, blk);
    Arith.MulNonNeg(d, blk);
    assert b * blk == a * blk + (b - a) * blk;
    Arith.MulAtLeast(b - a, blk);
    assert n * blk == b * blk + (n - b) * blk;
    Arith.MulAtLeast(n - b, blk);
  }
}
