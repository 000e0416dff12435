/**
 * The inode and data bitmaps: bit `i` lives in byte `i / 8` at bit position
 * `i % 8`. A specification on byte sequences, and the in-place first-fit scan
 * that jfs_alloc_inode and jfs_alloc_data_blk share.
 */
module Bitmap {

  import opened Types

  /** `0x1 << bit` truncated to a byte. */
  function Mask(bit: nat): bv8
    requires bit < 8
  {
    (1 as bv8) << bit
  }

  predicate IsSet(m: seq<bv8>, i: nat)
    requires i < |m| * 8
  {
    m[i / 8] & Mask(i % 8) != 0
  }

  lemma MaskBits(b: bv8, k: nat, j: nat)
    requires k < 8 && j < 8
    ensures (b | Mask(k)) & Mask(j) != 0 <==> j == k || b & Mask(j) != 0
    ensures (b & !Mask(k)) & Mask(j) != 0 <==> j != k && b & Mask(j) != 0
  {
    // a case split over the eight positions keeps each step to constants
    if k == 0 {
    } else if k == 1 {
    } else if k == 2 {
    } else if k == 3 {
    } else if k == 4 {
    } else if k == 5 {
    } else if k == 6 {
    } else {
    }
  }

  /** A map of zero bytes has no bit set. */
  lemma ZeroBytesClear(m: seq<bv8>)
    requires forall k :: 0 <= k < |m| ==> m[k] == 0
    ensures forall j :: 0 <= j < |m| * 8 ==> !IsSet(m, j)
  {
    forall j | 0 <= j < |m| * 8
      ensures !IsSet(m, j)
    {
      assert m[j / 8] == 0;
    }
  }

  /** `map[i / 8] |= 0x1 << (i % 8)`: sets bit `i` and no other. */
  function SetBit(m: seq<bv8>, i: nat): (r: seq<bv8>)
    requires i < |m| * 8
    ensures |r| == |m|
    ensures forall j :: 0 <= j < |m| * 8 ==> (IsSet(r, j) <==> j == i || IsSet(m, j))
    ensures forall k :: 0 <= k < |m| && k != i / 8 ==> r[k] == m[k]
  {
    var r := m[i / 8 := m[i / 8] | Mask(i % 8)];
    forall j | 0 <= j < |m| * 8
      ensures IsSet(r, j) <==> j == i || IsSet(m, j)
    {
      if j / 8 == i / 8 {
        MaskBits(m[i / 8], i % 8, j % 8);
      }
    }
    r
  }

  /** `map[i / 8] &= (uint8_t)~(0x1 << (i % 8))`: clears bit `i` and no other. */
  function ClearBit(m: seq<bv8>, i: nat): (r: seq<bv8>)
    requires i < |m| * 8
    ensures |r| == |m|
    ensures forall j :: 0 <= j < |m| * 8 ==> (IsSet(r, j) <==> j != i && IsSet(m, j))
    ensures forall k :: 0 <= k < |m| && k != i / 8 ==> r[k] == m[k]
  {
    var r := m[i / 8 := m[i / 8] & !Mask(i % 8)];
    forall j | 0 <= j < |m| * 8
      ensures IsSet(r, j) <==> j != i && IsSet(m, j)
    {
      if j / 8 == i / 8 {
        MaskBits(m[i / 8], i % 8, j % 8);
      }
    }
    r
  }

  /** Two bitmaps of equal length with the same set bits are equal byte for byte. */
  lemma {:induction false} SameBitsSameBytes(m: seq<bv8>, n: seq<bv8>)
    requires |m| == |n|
    requires forall j :: 0 <= j < |m| * 8 ==> (IsSet(m, j) <==> IsSet(n, j))
    ensures m == n
  {
    forall k | 0 <= k < |m|
      ensures m[k] == n[k]
    {
      var b, c := m[k], n[k];
      forall bit | 0 <= bit < 8
        ensures b & Mask(bit) == c & Mask(bit)
      {
        assert (k * 8 + bit) / 8 == k && (k * 8 + bit) % 8 == bit;
        assert IsSet(m, k * 8 + bit) <==> IsSet(n, k * 8 + bit);
        MaskIsolates(b, c, bit);
      }
      EqualOnAllMasks(b, c);
    }
  }

  lemma MaskIsolates(b: bv8, c: bv8, bit: nat)
    requires bit < 8
    requires (b & Mask(bit) != 0) <==> (c & Mask(bit) != 0)
    ensures b & Mask(bit) == c & Mask(bit)
  {
    if bit == 0 {
    } else if bit == 1 {
    } else if bit == 2 {
    } else if bit == 3 {
    } else if bit == 4 {
    } else if bit == 5 {
    } else if bit == 6 {
    } else {
    }
  }

  lemma EqualOnAllMasks(b: bv8, c: bv8)
    requires forall bit :: 0 <= bit < 8 ==> b & Mask(bit) == c & Mask(bit)
    ensures b == c
  {
    assert b & Mask(0) == c & Mask(0);
    assert b & Mask(1) == c & Mask(1);
    assert b & Mask(2) == c & Mask(2);
    assert b & Mask(3) == c & Mask(3);
    assert b & Mask(4) == c & Mask(4);
    assert b & Mask(5) == c & Mask(5);
    assert b & Mask(6) == c & Mask(6);
    assert b & Mask(7) == c & Mask(7);
  }

  /** Freeing a bit that an allocation has just taken restores the bitmap exactly. */
  lemma ClearAfterSet(m: seq<bv8>, i: nat)
    requires i < |m| * 8 && !IsSet(m, i)
    ensures ClearBit(SetBit(m, i), i) == m
  {
    SameBitsSameBytes(ClearBit(SetBit(m, i), i), m);
  }

  /** The lowest clear bit at or above `from`, None when all of them are set. */
  function LowestClearFrom(m: seq<bv8>, from: nat): (r: Option<nat>)
    requires from <= |m| * 8
    ensures r.Some? ==> from <= r.value < |m| * 8 && !IsSet(m, r.value)
    ensures r.Some? ==> forall j :: from <= j < r.value ==> IsSet(m, j)
    ensures r.None? ==> forall j :: from <= j < |m| * 8 ==> IsSet(m, j)
    decreases |m| * 8 - from
  {
    if from == |m| * 8 then None
    else if !IsSet(m, from) then Some(from)
    else LowestClearFrom(m, from + 1)
  }

  function LowestClear(m: seq<bv8>): (r: Option<nat>)
    ensures r.Some? ==> r.value < |m| * 8 && !IsSet(m, r.value)
    ensures r.Some? ==> forall j :: 0 <= j < r.value ==> IsSet(m, j)
    ensures r.None? ==> forall j :: 0 <= j < |m| * 8 ==> IsSet(m, j)
  {
    LowestClearFrom(m, 0)
  }

  /** Any clear bit that has only set bits below it is the one the scan finds. */
  lemma LowestClearUnique(m: seq<bv8>, c: nat)
    requires c < |m| * 8 && !IsSet(m, c)
    requires forall j :: 0 <= j < c ==> IsSet(m, j)
    ensures LowestClear(m) == Some(c)
  {
  }

  /**
   * The outcome of one first-fit allocation on a bitmap: the bitmap after the
   * scan, whether a clear bit was found, and the cursor the scan stopped at
   * (the number of bits examined before the hit, or all of them).
   */
  datatype Scan = Scan(map': seq<bv8>, found: bool, cursor: nat)

  function ScanSpec(m: seq<bv8>): (s: Scan)
    ensures s.found ==> s.cursor < |m| * 8 && !IsSet(m, s.cursor) && s.map' == SetBit(m, s.cursor)
    ensures s.found ==> forall j :: 0 <= j < s.cursor ==> IsSet(m, j)
    ensures !s.found ==> s.cursor == |m| * 8 && s.map' == m
    ensures !s.found ==> forall j :: 0 <= j < |m| * 8 ==> IsSet(m, j)
  {
    match LowestClear(m)
    case Some(c) => Scan(SetBit(m, c), true, c)
    case None => Scan(m, false, |m| * 8)
  }

  /**
   * The nested byte/bit loops of jfs_alloc_inode and jfs_alloc_data_blk: the
   * first clear bit in byte order, lowest bit first, is set in place.
   */
  method ScanAndSet(m: array<bv8>) returns (found: bool, cursor: nat)
    modifies m
    ensures found == ScanSpec(old(m[..])).found && cursor == ScanSpec(old(m[..])).cursor
    ensures m[..] == ScanSpec(old(m[..])).map'
  {
    ghost var m0 := m[..];
    found := false;
    cursor := 0;
    var byteCursor := 0;
    while byteCursor < m.Length
      invariant 0 <= byteCursor <= m.Length
      invariant cursor == byteCursor * 8
      invariant !found && m[..] == m0
      invariant forall j :: 0 <= j < cursor ==> IsSet(m0, j)
    {
      var bitCursor := 0;
      while bitCursor < UINT8_BITS
        invariant 0 <= bitCursor <= 8
        invariant cursor == byteCursor * 8 + bitCursor
        invariant !found && m[..] == m0
        invariant forall j :: 0 <= j < cursor ==> IsSet(m0, j)
      {
        if m[byteCursor] & Mask(bitCursor) == 0 {
          assert cursor / 8 == byteCursor && cursor % 8 == bitCursor;
          m[byteCursor] := m[byteCursor] | Mask(bitCursor);
          found := true;
          break;
        }
        assert cursor / 8 == byteCursor && cursor % 8 == bitCursor;
        cursor := cursor + 1;
        bitCursor := bitCursor + 1;
      }
      if found {
        break;
      }
      byteCursor := byteCursor + 1;
    }
    if found {
      LowestClearUnique(m0, cursor);
      assert m[..] == SetBit(m0, cursor);
    }
  }

  /** jfs_dealloc_data_blk's update: clear bit `i` in place. */
  method ClearBitAt(m: array<bv8>, i: nat)
    requires i < m.Length * 8
    modifies m
    ensures m[..] == ClearBit(old(m[..]), i)
  {
    m[i / UINT8_BITS] := m[i / UINT8_BITS] & !Mask(i % UINT8_BITS);
  }
}
