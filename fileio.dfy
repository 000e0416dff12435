/**
 * File data: the per-block split that juzfs_write and juzfs_read perform, the
 * byte effect of carrying the split out on the device, and the block-count
 * arithmetic of juzfs_truncate.
 */
module FileIo {

  import opened Types
  import Driver
  import Arith

  // ---------------------------------------------------------------------------
  // The per-block split
  // ---------------------------------------------------------------------------

  /** One transfer of the split: the block index, the device location and the byte count. */
  datatype Piece = Piece(blk: nat, loc: int, length: int)

  function StartBlk(offset: nat, blkSz: nat): nat
    requires blkSz > 0
  {
    offset / blkSz
  }

  function EndBlk(offset: nat, size: nat, blkSz: nat): nat
    requires blkSz > 0
  {
    (size + offset) / blkSz
  }

  /** The split reads only the six block slots. */
  predicate SplitInSlots(offset: nat, size: nat, blkSz: nat)
  {
    blkSz > 0 && EndBlk(offset, size, blkSz) < JFS_DATA_PER_FILE
  }

  /**
   * The transfer the loop body performs for block `i`, as written. The
   * location is passed to jfs_driver_write/jfs_driver_read as an `int`, so it
   * is the 64-bit sum read modulo 2^32 as two's complement.
   */
  function PieceAt(i: nat, offset: nat, size: nat, blkSz: nat, slots: seq<nat>): Piece
    requires blkSz > 0 && i < |slots| && StartBlk(offset, blkSz) < |slots|
  {
    var startBlk := StartBlk(offset, blkSz);
    var endBlk := EndBlk(offset, size, blkSz);
    var loc := ToInt(if i == startBlk then slots[startBlk] + offset else slots[i]);
    var length :=
      if startBlk == endBlk then size
      else if i == startBlk then blkSz - offset
      else if i == endBlk then (offset + size) % blkSz
      else blkSz;
    Piece(i, loc, length)
  }

  /** The transfers of juzfs_write/juzfs_read, for blocks `offset/BLK` through `(offset+size)/BLK`. */
  function Pieces(offset: nat, size: nat, blkSz: nat, slots: seq<nat>): (ps: seq<Piece>)
    requires SplitInSlots(offset, size, blkSz) && |slots| == JFS_DATA_PER_FILE
    ensures |ps| == EndBlk(offset, size, blkSz) - StartBlk(offset, blkSz) + 1
    ensures forall k :: 0 <= k < |ps| ==> ps[k] == PieceAt(StartBlk(offset, blkSz) + k, offset, size, blkSz, slots)
  {
    Arith.DivMonotone(offset, size + offset, blkSz);
    var startBlk := StartBlk(offset, blkSz);
    seq(EndBlk(offset, size, blkSz) - startBlk + 1,
        k requires 0 <= k < EndBlk(offset, size, blkSz) - startBlk + 1 =>
          PieceAt(startBlk + k, offset, size, blkSz, slots))
  }

  function SumLengths(ps: seq<Piece>): int
  {
    if ps == [] then 0 else SumLengths(ps[..|ps| - 1]) + ps[|ps| - 1].length
  }

  /** The split visits the blocks in order, one piece per block, starting at `offset/BLK`. */
  lemma PiecesVisitBlocks(offset: nat, size: nat, blkSz: nat, slots: seq<nat>)
    requires SplitInSlots(offset, size, blkSz) && |slots| == JFS_DATA_PER_FILE
    ensures var ps := Pieces(offset, size, blkSz, slots);
      && ps[0].blk == offset / blkSz && ps[|ps| - 1].blk == (size + offset) / blkSz
      && (forall k :: 0 <= k < |ps| ==> ps[k].blk == offset / blkSz + k)
  {
  }

  /** A request inside one block is a single transfer of `size` bytes at slot plus offset, as an `int`. */
  lemma SingleBlockPiece(offset: nat, size: nat, blkSz: nat, slots: seq<nat>)
    requires SplitInSlots(offset, size, blkSz) && |slots| == JFS_DATA_PER_FILE
    requires offset / blkSz == (size + offset) / blkSz
    ensures Pieces(offset, size, blkSz, slots) == [Piece(offset / blkSz, ToInt(slots[offset / blkSz] + offset), size)]
  {
  }

  /** The quantities the split is made of, as plain integers. */
  lemma BlockSplit(offset: nat, size: nat, blkSz: nat)
    requires blkSz > 0
    ensures var s, e := offset / blkSz, (size + offset) / blkSz;
      var o, r := offset % blkSz, (size + offset) % blkSz;
      && offset == s * blkSz + o && size + offset == e * blkSz + r
      && 0 <= o < blkSz && 0 <= r < blkSz && s <= e
      && (s == e ==> o + size == r)
      && (s < e ==> (e - s - 1) * blkSz == e * blkSz - s * blkSz - blkSz)
  {
    Arith.DivMonotone(offset, size + offset, blkSz);
  }

  lemma {:induction false} SumFirst(ps: seq<Piece>)
    requires ps != []
    ensures SumLengths(ps) == ps[0].length + SumLengths(ps[1..])
    decreases |ps|
  {
    if |ps| > 1 {
      SumFirst(ps[..|ps| - 1]);
      assert ps[..|ps| - 1][1..] == ps[1..][..|ps[1..]| - 1];
    } else {
      assert ps[..0] == [];
    }
  }

  /** Lengths `a`, then `blkSz` repeated, then `b`: the sum is `a + (n - 2) * blkSz + b`. */
  lemma {:induction false} SumShape(ps: seq<Piece>, blkSz: int)
    requires |ps| >= 2
    requires forall k :: 0 < k < |ps| - 1 ==> ps[k].length == blkSz
    ensures SumLengths(ps) == ps[0].length + (|ps| - 2) * blkSz + ps[|ps| - 1].length
    decreases |ps|
  {
    var init := ps[..|ps| - 1];
    if |ps| == 2 {
      assert init == [ps[0]] && init[..0] == [];
      assert SumLengths(init) == ps[0].length;
      assert (|ps| - 2) * blkSz == 0;
    } else {
      SumShape(init, blkSz);
      assert init[|init| - 1].length == blkSz;
    }
  }

  /**
   * The lengths of a multi-block split add up to `size - (offset/BLK)*BLK`:
   * exactly `size` when the request starts in block 0, short of it otherwise.
   */
  lemma PiecesSum(offset: nat, size: nat, blkSz: nat, slots: seq<nat>)
    requires SplitInSlots(offset, size, blkSz) && |slots| == JFS_DATA_PER_FILE
    ensures var ps := Pieces(offset, size, blkSz, slots);
      && (offset / blkSz == (size + offset) / blkSz ==> SumLengths(ps) == size)
      && (offset / blkSz < (size + offset) / blkSz ==> SumLengths(ps) == size - (offset / blkSz) * blkSz)
  {
    var ps := Pieces(offset, size, blkSz, slots);
    BlockSplit(offset, size, blkSz);
    var s, e := offset / blkSz, (size + offset) / blkSz;
    if s == e {
      assert ps == [ps[0]] && ps[..0] == [];
    } else {
      assert ps[0].length == blkSz - offset;
      assert ps[|ps| - 1].length == (offset + size) % blkSz;
      SumShape(ps, blkSz);
    }
  }

  /** The split never transfers more bytes than were requested. */
  lemma PiecesSumAtMost(offset: nat, size: nat, blkSz: nat, slots: seq<nat>)
    requires SplitInSlots(offset, size, blkSz) && |slots| == JFS_DATA_PER_FILE
    ensures SumLengths(Pieces(offset, size, blkSz, slots)) <= size
  {
    PiecesSum(offset, size, blkSz, slots);
    Arith.MulNonNeg(offset / blkSz, blkSz);
  }

  /** When `offset < BLK` the lengths sum to `size` and none is negative. */
  lemma PiecesCoverFromFirstBlock(offset: nat, size: nat, blkSz: nat, slots: seq<nat>)
    requires SplitInSlots(offset, size, blkSz) && |slots| == JFS_DATA_PER_FILE
    requires offset < blkSz
    ensures var ps := Pieces(offset, size, blkSz, slots);
      SumLengths(ps) == size && forall k :: 0 <= k < |ps| ==> ps[k].length >= 0
  {
    var ps := Pieces(offset, size, blkSz, slots);
    Arith.DivModUnique(offset, blkSz, 0, offset);
    PiecesSum(offset, size, blkSz, slots);
    forall k | 0 <= k < |ps|
      ensures ps[k].length >= 0
    {
      assert ps[k] == PieceAt(k, offset, size, blkSz, slots);
    }
  }

  /** A request that starts past block 0 and spans blocks has a first transfer of negative length. */
  lemma StartLengthNegative(offset: nat, size: nat, blkSz: nat, slots: seq<nat>)
    requires SplitInSlots(offset, size, blkSz) && |slots| == JFS_DATA_PER_FILE
    requires offset > blkSz && offset / blkSz < (size + offset) / blkSz
    ensures Pieces(offset, size, blkSz, slots)[0].length < 0
  {
  }

  /**
   * The split as written uses the slot value, a block number, as a device byte
   * location. On a file that has no blocks yet every slot is 0, so a request
   * inside the first block lands on device bytes `[offset, offset+size)`
   * (for offsets below 2^31, which an `int` location keeps).
   */
  lemma FreshFileWriteLocation(offset: nat, size: nat, blkSz: nat)
    requires SplitInSlots(offset, size, blkSz) && offset + size < blkSz
    ensures Pieces(offset, size, blkSz, [0, 0, 0, 0, 0, 0]) == [Piece(0, ToInt(offset), size)]
    ensures offset < INT_MAX_PLUS_1 ==> Pieces(offset, size, blkSz, [0, 0, 0, 0, 0, 0]) == [Piece(0, offset, size)]
  {
    Arith.DivModUnique(offset, blkSz, 0, offset);
    Arith.DivModUnique(size + offset, blkSz, 0, size + offset);
    SingleBlockPiece(offset, size, blkSz, [0, 0, 0, 0, 0, 0]);
  }

  /**
   * A slot whose block allocation failed holds `(uint64_t)-ENOSPC`. A request
   * inside that block, at an offset of at least 28, goes to device byte
   * `offset - 28`: the sum wraps once the location is narrowed to an `int`.
   */
  lemma FailedSlotLocation(offset: nat, size: nat, blkSz: nat)
    requires SplitInSlots(offset, size, blkSz) && offset + size < blkSz
    requires ENOSPC <= offset < INT_MAX_PLUS_1 + ENOSPC
    ensures Pieces(offset, size, blkSz, [ENOSPC_U64, 0, 0, 0, 0, 0]) == [Piece(0, offset - ENOSPC, size)]
  {
    Arith.DivModUnique(offset, blkSz, 0, offset);
    Arith.DivModUnique(size + offset, blkSz, 0, size + offset);
    SingleBlockPiece(offset, size, blkSz, [ENOSPC_U64, 0, 0, 0, 0, 0]);
    FailedSlotWraps(offset);
  }

  /** The transfer for block `i` when locations go through JFS_DATA_OFS and the first length counts from the offset within the block. */
  function IntendedPieceAt(i: nat, offset: nat, size: nat, ioSz: nat, dataOffset: nat, slots: seq<nat>): Piece
    requires ioSz > 0 && i < |slots|
  {
    var blkSz := BlkSz(ioSz);
    var startBlk := StartBlk(offset, blkSz);
    var endBlk := EndBlk(offset, size, blkSz);
    var loc := DataOfs(dataOffset, slots[i], ioSz) + (if i == startBlk then offset % blkSz else 0);
    var length :=
      if startBlk == endBlk then size
      else if i == startBlk then blkSz - offset % blkSz
      else if i == endBlk then (offset + size) % blkSz
      else blkSz;
    Piece(i, loc, length)
  }

  function IntendedPieces(offset: nat, size: nat, ioSz: nat, dataOffset: nat, slots: seq<nat>): (ps: seq<Piece>)
    requires ioSz > 0 && SplitInSlots(offset, size, BlkSz(ioSz)) && |slots| == JFS_DATA_PER_FILE
    ensures |ps| == EndBlk(offset, size, BlkSz(ioSz)) - StartBlk(offset, BlkSz(ioSz)) + 1
    ensures forall k :: 0 <= k < |ps| ==>
      ps[k] == IntendedPieceAt(StartBlk(offset, BlkSz(ioSz)) + k, offset, size, ioSz, dataOffset, slots)
  {
    var blkSz := BlkSz(ioSz);
    Arith.DivMonotone(offset, size + offset, blkSz);
    var startBlk := StartBlk(offset, blkSz);
    seq(EndBlk(offset, size, blkSz) - startBlk + 1,
        k requires 0 <= k < EndBlk(offset, size, blkSz) - startBlk + 1 =>
          IntendedPieceAt(startBlk + k, offset, size, ioSz, dataOffset, slots))
  }

  /**
   * With the intended locations and lengths every transfer stays inside its
   * own data block, and the lengths always add up to `size`.
   */
  lemma IntendedPiecesCover(offset: nat, size: nat, ioSz: nat, dataOffset: nat, slots: seq<nat>)
    requires ioSz > 0 && SplitInSlots(offset, size, BlkSz(ioSz)) && |slots| == JFS_DATA_PER_FILE
    ensures var ps := IntendedPieces(offset, size, ioSz, dataOffset, slots);
      && SumLengths(ps) == size
      && forall k :: 0 <= k < |ps| ==>
           && ps[k].length >= 0
           && DataOfs(dataOffset, slots[ps[k].blk], ioSz) <= ps[k].loc
           && ps[k].loc + ps[k].length <= DataOfs(dataOffset, slots[ps[k].blk], ioSz) + BlkSz(ioSz)
  {
    var blkSz := BlkSz(ioSz);
    var ps := IntendedPieces(offset, size, ioSz, dataOffset, slots);
    BlockSplit(offset, size, blkSz);
    var s, e := offset / blkSz, (size + offset) / blkSz;
    if s == e {
      assert ps == [ps[0]] && ps[..0] == [];
    } else {
      assert ps[0].length == blkSz - offset % blkSz;
      assert ps[|ps| - 1].length == (offset + size) % blkSz;
      SumShape(ps, blkSz);
    }
  }

  // ---------------------------------------------------------------------------
  // Carrying the split out on the device
  // ---------------------------------------------------------------------------

  /** Every transfer has a non-negative length and lies within `diskSz` bytes. */
  predicate Fits(ps: seq<Piece>, diskSz: nat)
  {
    forall k :: 0 <= k < |ps| ==> ps[k].loc >= 0 && ps[k].length >= 0 && ps[k].loc + ps[k].length <= diskSz
  }

  /** Every transfer fits the device, and so does the unit-aligned window the driver reads around it. */
  predicate Transferable(ps: seq<Piece>, ioSz: nat, diskSz: nat)
  {
    && Fits(ps, diskSz)
    && forall k :: 0 <= k < |ps| ==> Driver.InDevice(ps[k].loc, ps[k].length, ioSz, diskSz)
  }

  lemma FitsPrefix(ps: seq<Piece>, n: nat, diskSz: nat)
    requires Fits(ps, diskSz) && n <= |ps|
    ensures Fits(ps[..n], diskSz)
  {
  }

  lemma {:induction false} SumLengthsNonNeg(ps: seq<Piece>, diskSz: nat)
    requires Fits(ps, diskSz)
    ensures SumLengths(ps) >= 0
    decreases |ps|
  {
    if ps != [] {
      SumLengthsNonNeg(ps[..|ps| - 1], diskSz);
    }
  }

  /** The `len` bytes of the buffer from `start` on. */
  function Chunk(buf: seq<bv8>, start: int, len: int): (r: seq<bv8>)
    requires 0 <= start && 0 <= len && start + len <= |buf|
    ensures |r| == len
  {
    buf[start .. start + len]
  }

  /** The device bytes after the loop of juzfs_write: each piece writes the next `length` bytes of the buffer. */
  function WriteAll(bytes: seq<bv8>, ps: seq<Piece>, buf: seq<bv8>): (r: seq<bv8>)
    requires Fits(ps, |bytes|) && SumLengths(ps) <= |buf|
    ensures |r| == |bytes|
    decreases |ps|
  {
    if ps == [] then bytes
    else
      var init := ps[..|ps| - 1];
      var last := ps[|ps| - 1];
      FitsPrefix(ps, |ps| - 1, |bytes|);
      SumLengthsNonNeg(init, |bytes|);
      var start := SumLengths(init);
      var before := WriteAll(bytes, init, buf);
      Driver.Overwrite(before, last.loc, Chunk(buf, start, last.length))
  }

  /** The bytes the loop of juzfs_read places in its buffer: each piece's device bytes, in order. */
  function ReadAll(bytes: seq<bv8>, ps: seq<Piece>): (r: seq<bv8>)
    requires Fits(ps, |bytes|)
    ensures |r| == SumLengths(ps)
    decreases |ps|
  {
    if ps == [] then []
    else
      var last := ps[|ps| - 1];
      FitsPrefix(ps, |ps| - 1, |bytes|);
      ReadAll(bytes, ps[..|ps| - 1]) + bytes[last.loc .. last.loc + last.length]
  }

  /** The bytes consumed by a prefix of the transfers never exceed those of all of them. */
  lemma {:induction false} SumLengthsPrefix(ps: seq<Piece>, m: nat, diskSz: nat)
    requires Fits(ps, diskSz) && m <= |ps|
    ensures SumLengths(ps[..m]) <= SumLengths(ps)
    decreases |ps|
  {
    if m < |ps| {
      var init := ps[..|ps| - 1];
      assert ps[..m] == init[..m];
      FitsPrefix(ps, |ps| - 1, diskSz);
      SumLengthsPrefix(init, m, diskSz);
    } else {
      assert ps[..m] == ps;
    }
  }

  /** One more transfer of the write loop: the prefix grows by one piece, written after the others. */
  lemma WriteAllStep(bytes: seq<bv8>, ps: seq<Piece>, m: nat, buf: seq<bv8>)
    requires Fits(ps, |bytes|) && SumLengths(ps) <= |buf| && m < |ps|
    ensures Fits(ps[..m], |bytes|) && Fits(ps[..m + 1], |bytes|)
    ensures 0 <= SumLengths(ps[..m]) && SumLengths(ps[..m + 1]) == SumLengths(ps[..m]) + ps[m].length <= |buf|
    ensures WriteAll(bytes, ps[..m + 1], buf)
         == Driver.Overwrite(WriteAll(bytes, ps[..m], buf), ps[m].loc, Chunk(buf, SumLengths(ps[..m]), ps[m].length))
  {
    FitsPrefix(ps, m + 1, |bytes|);
    SumLengthsPrefix(ps, m + 1, |bytes|);
    PrefixSnoc(ps, m);
    WriteAllSnoc(bytes, ps[..m], ps[m], buf);
  }

  lemma PrefixSnoc(ps: seq<Piece>, m: nat)
    requires m < |ps|
    ensures ps[..m + 1] == ps[..m] + [ps[m]]
  {
    assert ps[..m + 1][m] == ps[m];
  }

  /** A transfer added at the end of a write is applied on top of the others. */
  lemma WriteAllSnoc(bytes: seq<bv8>, init: seq<Piece>, p: Piece, buf: seq<bv8>)
    requires Fits(init + [p], |bytes|) && SumLengths(init + [p]) <= |buf|
    ensures Fits(init, |bytes|) && 0 <= SumLengths(init)
    ensures SumLengths(init + [p]) == SumLengths(init) + p.length
    ensures WriteAll(bytes, init + [p], buf)
         == Driver.Overwrite(WriteAll(bytes, init, buf), p.loc, Chunk(buf, SumLengths(init), p.length))
  {
    var q := init + [p];
    WriteAllLast(bytes, q, buf);
    assert q[..|q| - 1] == init && q[|q| - 1] == p;
  }

  /** The last transfer of a write is applied on top of the others. */
  lemma WriteAllLast(bytes: seq<bv8>, ps: seq<Piece>, buf: seq<bv8>)
    requires Fits(ps, |bytes|) && SumLengths(ps) <= |buf| && ps != []
    ensures var init := ps[..|ps| - 1];
      && Fits(init, |bytes|) && 0 <= SumLengths(init) <= |buf|
      && WriteAll(bytes, ps, buf)
         == Driver.Overwrite(WriteAll(bytes, init, buf), ps[|ps| - 1].loc,
                             Chunk(buf, SumLengths(init), ps[|ps| - 1].length))
  {
    FitsPrefix(ps, |ps| - 1, |bytes|);
    SumLengthsNonNeg(ps[..|ps| - 1], |bytes|);
  }

  /** One more transfer of the read loop: its bytes go after those read so far. */
  lemma ReadAllStep(bytes: seq<bv8>, ps: seq<Piece>, m: nat)
    requires Fits(ps, |bytes|) && m < |ps|
    ensures Fits(ps[..m], |bytes|) && Fits(ps[..m + 1], |bytes|)
    ensures ReadAll(bytes, ps[..m + 1])
         == ReadAll(bytes, ps[..m]) + bytes[ps[m].loc .. ps[m].loc + ps[m].length]
  {
    var q := ps[..m + 1];
    assert |q| - 1 == m && q[..m] == ps[..m] && q[m] == ps[m];
    FitsPrefix(ps, m + 1, |bytes|);
    FitsPrefix(ps, m, |bytes|);
  }

  /** Reading back a single-piece write returns what was written. */
  lemma SinglePieceRoundTrip(bytes: seq<bv8>, p: Piece, buf: seq<bv8>)
    requires Fits([p], |bytes|) && p.length == |buf|
    ensures ReadAll(WriteAll(bytes, [p], buf), [p]) == buf
  {
    assert [p][..0] == [];
  }

  /**
   * A two-block write as written does not read back: with one-byte I/O units
   * (two-byte blocks) and slots 0 and 1, writing [1, 2, 3] at offset 0 puts the
   * second piece at device byte 1, over the first piece's second byte, and
   * reading the same range back gives [1, 3, 3].
   */
  lemma MultiBlockWriteOverlaps()
    ensures var ps := Pieces(0, 3, BlkSz(1), [0, 1, 0, 0, 0, 0]);
      && ps == [Piece(0, 0, 2), Piece(1, 1, 1)]
      && Transferable(ps, 1, 4)
      && ReadAll(WriteAll([0, 0, 0, 0], ps, [1, 2, 3]), ps) == [1, 3, 3]
  {
    var ps := Pieces(0, 3, BlkSz(1), [0, 1, 0, 0, 0, 0]);
    assert 3 / 2 == 1;
    assert ps[0] == Piece(0, 0, 2);
    assert ps[1] == Piece(1, 1, 1);
    assert ps == [Piece(0, 0, 2), Piece(1, 1, 1)];
    OverlapBytes();
  }

  lemma OverlapBytes()
    ensures var ps := [Piece(0, 0, 2), Piece(1, 1, 1)];
      && Transferable(ps, 1, 4)
      && ReadAll(WriteAll([0, 0, 0, 0], ps, [1, 2, 3]), ps) == [1, 3, 3]
  {
    var ps := [Piece(0, 0, 2), Piece(1, 1, 1)];
    OverlapWrite();
    var first := [Piece(0, 0, 2)];
    assert ps[..1] == first && first[..0] == [];
    var after: seq<bv8> := [1, 3, 0, 0];
    assert ReadAll(after, first) == [1, 3];
    assert after[1 .. 2] == [3];
  }

  /** The second piece of the overlapping write lands on the device byte the first one wrote. */
  lemma OverlapWrite()
    ensures var ps := [Piece(0, 0, 2), Piece(1, 1, 1)];
      && Transferable(ps, 1, 4)
      && WriteAll([0, 0, 0, 0], ps, [1, 2, 3]) == [1, 3, 0, 0]
  {
    var ps := [Piece(0, 0, 2), Piece(1, 1, 1)];
    var b: seq<bv8> := [0, 0, 0, 0];
    var buf: seq<bv8> := [1, 2, 3];
    var mid: seq<bv8> := [1, 2, 0, 0];
    OverlapFirstPiece();
    assert ps[..1] == [Piece(0, 0, 2)];
    assert buf[2 .. 3] == [3];
    assert WriteAll(b, ps, buf) == Driver.Overwrite(mid, 1, [3]);
    assert mid[..1] + [3] + mid[2..] == [1, 3, 0, 0];
  }

  /** The first piece of the overlapping write puts the first two bytes of the buffer at device byte 0. */
  lemma OverlapFirstPiece()
    ensures Transferable([Piece(0, 0, 2)], 1, 4) && SumLengths([Piece(0, 0, 2)]) == 2
    ensures WriteAll([0, 0, 0, 0], [Piece(0, 0, 2)], [1, 2, 3]) == [1, 2, 0, 0]
  {
    var first := [Piece(0, 0, 2)];
    var b: seq<bv8> := [0, 0, 0, 0];
    var buf: seq<bv8> := [1, 2, 3];
    assert first[..0] == [];
    assert buf[0 .. 2] == [1, 2];
    assert WriteAll(b, first, buf) == Driver.Overwrite(b, 0, [1, 2]);
    assert b[..0] + [1, 2] + b[2..] == [1, 2, 0, 0];
  }

  // ---------------------------------------------------------------------------
  // Truncate
  // ---------------------------------------------------------------------------

  /** `JFS_ROUND_UP(bytes, BLK) / BLK`: the blocks a size occupies. */
  function BlocksFor(bytes: nat, blkSz: nat): (n: nat)
    requires blkSz > 0
    ensures (n - 1) * blkSz < bytes <= n * blkSz || (n == 0 && bytes == 0)
  {
    Arith.DivModUnique(RoundUp(bytes, blkSz), blkSz, RoundUp(bytes, blkSz) / blkSz, 0);
    RoundUp(bytes, blkSz) / blkSz
  }

  /** The slots juzfs_truncate's growth loop assigns: `fileBlks` up to `newBlks - 1`. */
  predicate GrowSlot(i: nat, fileBlks: nat, newBlks: nat)
  {
    newBlks > fileBlks && fileBlks <= i < newBlks
  }
}
