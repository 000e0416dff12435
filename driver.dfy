/**
 * The block device and the two byte-granular transfer routines built on its
 * unit-sized reads and writes (jfs_driver_read, jfs_driver_write).
 */
module Driver {

  import opened Types
  import Arith

  /**
   * The device: its contents and its I/O unit. The seek position of the
   * device library is not kept; each unit transfer names its position.
   */
  class Device {
    var bytes: seq<bv8>
    const ioSz: nat

    constructor (contents: seq<bv8>, unit: nat)
      ensures bytes == contents && ioSz == unit
    {
      bytes := contents;
      ioSz := unit;
    }

    /** One ddriver_read of a whole I/O unit. */
    method ReadUnit(pos: nat) returns (unit: seq<bv8>)
      requires ioSz > 0 && pos + ioSz <= |bytes|
      ensures unit == bytes[pos .. pos + ioSz]
    {
      unit := bytes[pos .. pos + ioSz];
    }

    /** One ddriver_write of a whole I/O unit. */
    method WriteUnit(pos: nat, unit: seq<bv8>)
      requires |unit| == ioSz && pos + ioSz <= |bytes|
      modifies this
      ensures bytes == Overwrite(old(bytes), pos, unit)
    {
      bytes := bytes[..pos] + unit + bytes[pos + ioSz..];
    }
  }

  /** `bytes` with `data` written at `offset`. */
  function Overwrite(bytes: seq<bv8>, offset: nat, data: seq<bv8>): (r: seq<bv8>)
    requires offset + |data| <= |bytes|
    ensures |r| == |bytes|
    ensures r[offset .. offset + |data|] == data
    ensures forall k :: 0 <= k < |bytes| && !(offset <= k < offset + |data|) ==> r[k] == bytes[k]
  {
    bytes[..offset] + data + bytes[offset + |data|..]
  }

  /**
   * The unit-aligned window a transfer of `size` bytes at `offset` touches:
   * its start and its length. It covers the requested bytes and reaches less
   * than one unit beyond them on either side.
   */
  function Window(offset: nat, size: nat, ioSz: nat): (w: (nat, nat))
    requires ioSz > 0
    ensures w.0 % ioSz == 0 && w.1 % ioSz == 0
    ensures w.0 <= offset < w.0 + ioSz
    ensures offset + size <= w.0 + w.1 < offset + size + ioSz
  {
    var offsetAligned := RoundDown(offset, ioSz);
    var bias := offset - offsetAligned;
    (offsetAligned, RoundUp(size + bias, ioSz))
  }

  /** The device can serve the whole window of a transfer. */
  predicate InDevice(offset: nat, size: nat, ioSz: nat, diskSz: nat)
  {
    ioSz > 0 && Window(offset, size, ioSz).0 + Window(offset, size, ioSz).1 <= diskSz
  }

  /** An aligned transfer's window is the transfer itself. */
  lemma AlignedWindow(offset: nat, size: nat, ioSz: nat)
    requires ioSz > 0 && offset % ioSz == 0 && size % ioSz == 0
    ensures Window(offset, size, ioSz) == (offset, size)
  {
  }

  /**
   * jfs_driver_read: reads the aligned window unit by unit and returns the
   * requested bytes out of it.
   */
  method DriverRead(dev: Device, offset: nat, size: nat) returns (out: seq<bv8>)
    requires InDevice(offset, size, dev.ioSz, |dev.bytes|)
    ensures out == dev.bytes[offset .. offset + size]
  {
    var io := dev.ioSz;
    var offsetAligned := RoundDown(offset, io);
    var bias := offset - offsetAligned;
    var sizeAligned := RoundUp(size + bias, io);
    ghost var total := sizeAligned;
    ghost var b := dev.bytes;
    WindowReadable(offset, size, io, |b|);
    var temp: seq<bv8> := [];
    var pos := offsetAligned;
    while sizeAligned != 0
      invariant sizeAligned % io == 0
      invariant |temp| + sizeAligned == total
      invariant pos == offsetAligned + |temp|
      invariant dev.bytes == b
      invariant temp == b[offsetAligned .. pos]
      decreases sizeAligned
    {
      Arith.PeelMultiple(sizeAligned, io);
      var unit := dev.ReadUnit(pos);
      assert b[offsetAligned .. pos + io] == b[offsetAligned .. pos] + unit;
      temp := temp + unit;
      pos := pos + io;
      sizeAligned := sizeAligned - io;
    }
    assert temp == b[offsetAligned .. offsetAligned + total];
    out := temp[bias .. bias + size];
    SliceOfSlice(b, offsetAligned, total, bias, bias + size);
  }

  lemma SliceOfSlice(b: seq<bv8>, start: nat, len: nat, lo: nat, hi: nat)
    requires start + len <= |b| && lo <= hi <= len
    ensures b[start .. start + len][lo .. hi] == b[start + lo .. start + hi]
  {
    var w := b[start .. start + len];
    forall k | 0 <= k < hi - lo
      ensures w[lo .. hi][k] == b[start + lo .. start + hi][k]
    {
      assert w[lo .. hi][k] == w[lo + k] == b[start + lo + k];
    }
  }

  /** Two adjacent writes are one write of their concatenation. */
  lemma OverwriteAdjacent(bytes: seq<bv8>, offset: nat, x: seq<bv8>, y: seq<bv8>)
    requires offset + |x| + |y| <= |bytes|
    ensures Overwrite(Overwrite(bytes, offset, x), offset + |x|, y) == Overwrite(bytes, offset, x + y)
  {
    var lhs := Overwrite(Overwrite(bytes, offset, x), offset + |x|, y);
    var rhs := Overwrite(bytes, offset, x + y);
    forall k | 0 <= k < |bytes|
      ensures lhs[k] == rhs[k]
    {
      if offset <= k < offset + |x| {
        assert lhs[k] == x[k - offset] == (x + y)[k - offset];
      } else if offset + |x| <= k < offset + |x| + |y| {
        assert lhs[k] == y[k - offset - |x|] == (x + y)[k - offset];
      }
    }
  }

  /** Writing back a window that only differs from the disk in `data` is writing `data`. */
  lemma OverwriteWindow(bytes: seq<bv8>, start: nat, bias: nat, data: seq<bv8>, len: nat)
    requires bias + |data| <= len && start + len <= |bytes|
    ensures var w := bytes[start .. start + len];
      Overwrite(bytes, start, w[..bias] + data + w[bias + |data|..])
        == Overwrite(bytes, start + bias, data)
  {
    var w := bytes[start .. start + len];
    var t := w[..bias] + data + w[bias + |data|..];
    var lhs := Overwrite(bytes, start, t);
    var rhs := Overwrite(bytes, start + bias, data);
    forall k | 0 <= k < |bytes|
      ensures lhs[k] == rhs[k]
    {
      if start <= k < start + len {
        assert lhs[k] == t[k - start];
        if k - start < bias {
          assert t[k - start] == w[k - start] == bytes[k];
        } else if k - start < bias + |data| {
          assert t[k - start] == data[k - start - bias];
        } else {
          assert t[k - start] == w[k - start] == bytes[k];
        }
      }
    }
  }

  /** The window of a transfer the device can serve is itself a transfer the device can serve. */
  lemma WindowReadable(offset: nat, size: nat, ioSz: nat, diskSz: nat)
    requires InDevice(offset, size, ioSz, diskSz)
    ensures var start := RoundDown(offset, ioSz);
      var len := RoundUp(size + (offset - start), ioSz);
      && InDevice(start, len, ioSz, diskSz)
      && offset - start + size <= len && start + len <= diskSz
  {
    var start := RoundDown(offset, ioSz);
    var len := RoundUp(size + (offset - start), ioSz);
    AlignedWindow(start, len, ioSz);
  }

  /** One round of the write-back loop: the next I/O unit of `temp` goes to the device. */
  method WriteNextUnit(dev: Device, ghost before: seq<bv8>, start: nat, temp: seq<bv8>, cur: nat)
    requires dev.ioSz > 0 && cur + dev.ioSz <= |temp| && start + |temp| <= |before|
    requires dev.bytes == Overwrite(before, start, temp[..cur])
    modifies dev
    ensures dev.bytes == Overwrite(before, start, temp[..cur + dev.ioSz])
  {
    var unit := temp[cur .. cur + dev.ioSz];
    dev.WriteUnit(start + cur, unit);
    OverwriteAdjacent(before, start, temp[..cur], unit);
    assert temp[..cur] + unit == temp[..cur + dev.ioSz];
  }

  /**
   * The write-back loop of jfs_driver_write: the aligned window `temp` goes
   * to the device one I/O unit at a time from `start`.
   */
  method WriteBack(dev: Device, start: nat, temp: seq<bv8>)
    requires dev.ioSz > 0 && |temp| % dev.ioSz == 0 && start + |temp| <= |dev.bytes|
    modifies dev
    ensures dev.bytes == Overwrite(old(dev.bytes), start, temp)
  {
    var io := dev.ioSz;
    var sizeAligned: nat := |temp|;
    ghost var before := dev.bytes;
    var cur := 0;
    while sizeAligned != 0
      invariant sizeAligned % io == 0
      invariant start + |temp| <= |before|
      invariant cur + sizeAligned == |temp|
      invariant dev.bytes == Overwrite(before, start, temp[..cur])
      decreases sizeAligned
    {
      Arith.PeelMultiple(sizeAligned, io);
      WriteNextUnit(dev, before, start, temp, cur);
      cur := cur + io;
      sizeAligned := sizeAligned - io;
    }
    assert temp[..cur] == temp;
  }

  /**
   * jfs_driver_write: reads the aligned window, overlays the data at the
   * bias, and writes the window back unit by unit. Only the requested bytes
   * change.
   */
  method DriverWrite(dev: Device, offset: nat, data: seq<bv8>)
    requires InDevice(offset, |data|, dev.ioSz, |dev.bytes|)
    modifies dev
    ensures dev.bytes == Overwrite(old(dev.bytes), offset, data)
  {
    var io := dev.ioSz;
    var offsetAligned := RoundDown(offset, io);
    var bias := offset - offsetAligned;
    var sizeAligned := RoundUp(|data| + bias, io);
    WindowReadable(offset, |data|, io, |dev.bytes|);
    var temp := DriverRead(dev, offsetAligned, sizeAligned);
    temp := temp[..bias] + data + temp[bias + |data|..];
    OverwriteWindow(dev.bytes, offsetAligned, bias, data, sizeAligned);
    WriteBack(dev, offsetAligned, temp);
  }
}
