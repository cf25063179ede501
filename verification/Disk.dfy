/** Sectors, the little-endian words in them, and the bits of a bitmap's sectors, as the file system
    sees its disk: each `ide_read` and `ide_write` of the file system copies one sector, or two that
    follow each other. */
module Disk {
  import opened Common
  import Bitmaps

  const SECTOR_SIZE := 512
  const BITS_PER_SECTOR := 4096

  type Sector = s: seq<Byte> | |s| == SECTOR_SIZE witness seq(SECTOR_SIZE, i => 0)

  /** The 32-bit word stored at an offset, low byte first. */
  function Word32(b: seq<Byte>, at: int): Word
    requires 0 <= at && at + 4 <= |b|
  {
    (b[at] as int) + 0x100 * (b[at + 1] as int) + 0x1_0000 * (b[at + 2] as int) + 0x100_0000 * (b[at + 3] as int)
  }

  /** Four bytes as a number, the low byte first. */
  function FourBytes(b0: int, b1: int, b2: int, b3: int): int { b0 + 0x100 * b1 + 0x1_0000 * b2 + 0x100_0000 * b3 }

  function Bytes32(w: Word): (r: seq<Byte>)
    ensures |r| == 4
  {
    [w % 0x100, w / 0x100 % 0x100, w / 0x1_0000 % 0x100, w / 0x100_0000]
  }

  /** A word survives being stored. */
  lemma WordRoundTrip(w: Word, b: seq<Byte>, at: int)
    requires 0 <= at && at + 4 <= |b| && b[at..at + 4] == Bytes32(w)
    ensures Word32(b, at) == w
  {
    var s := b[at..at + 4];
    assert b[at] == s[0] && b[at + 1] == s[1] && b[at + 2] == s[2] && b[at + 3] == s[3];
    var x, y := w / 0x100, w / 0x1_0000;
    assert y == x / 0x100 && w / 0x100_0000 == y / 0x100;
  }

  /** `memcpy` into a buffer. */
  function Patched(b: seq<Byte>, at: int, data: seq<Byte>): (r: seq<Byte>)
    requires 0 <= at && at + |data| <= |b|
    ensures |r| == |b|
    ensures forall i :: 0 <= i < |b| ==> r[i] == if at <= i < at + |data| then data[i - at] else b[i]
  {
    b[..at] + data + b[at + |data|..]
  }

  function Zeros(n: nat): (r: seq<Byte>)
    ensures |r| == n && forall i :: 0 <= i < n ==> r[i] == 0
  {
    seq(n, i => 0)
  }

  // ---------- bitmaps on the disk ----------

  function Power2(i: int): int {
    if i <= 0 then 1 else if i == 1 then 2 else if i == 2 then 4 else if i == 3 then 8
    else if i == 4 then 16 else if i == 5 then 32 else if i == 6 then 64 else 128
  }

  /** Bit i of a byte. */
  predicate BitIn(b: Byte, i: int) { b / Power2(i) % 2 == 1 }

  function Bit(v: bool): int { if v then 1 else 0 }

  /** Eight bits as a byte, the first in the lowest place. */
  function PackByte(s: seq<bool>): Byte
    requires |s| == 8
  {
    Bit(s[0]) + 2 * Bit(s[1]) + 4 * Bit(s[2]) + 8 * Bit(s[3]) + 16 * Bit(s[4]) + 32 * Bit(s[5]) + 64 * Bit(s[6])
        + 128 * Bit(s[7])
  }

  lemma LowBits(s: seq<bool>, i: int)
    requires |s| == 8 && 0 <= i < 2
    ensures BitIn(PackByte(s), i) == s[i]
  {
    var x := PackByte(s);
    if i == 0 {
      assert x / 1 == Bit(s[0]) + 2 * Bit(s[1]) + 4 * Bit(s[2]) + 8 * Bit(s[3])
                      + 16 * Bit(s[4]) + 32 * Bit(s[5]) + 64 * Bit(s[6]) + 128 * Bit(s[7]);
    } else {
      assert x / 2 == Bit(s[1]) + 2 * Bit(s[2]) + 4 * Bit(s[3]) + 8 * Bit(s[4])
                      + 16 * Bit(s[5]) + 32 * Bit(s[6]) + 64 * Bit(s[7]);
    }
  }

  lemma MiddleBits(s: seq<bool>, i: int)
    requires |s| == 8 && 2 <= i < 4
    ensures BitIn(PackByte(s), i) == s[i]
  {
    var x := PackByte(s);
    if i == 2 {
      assert x / 4 == Bit(s[2]) + 2 * Bit(s[3]) + 4 * Bit(s[4]) + 8 * Bit(s[5]) + 16 * Bit(s[6]) + 32 * Bit(s[7]);
    } else {
      assert x / 8 == Bit(s[3]) + 2 * Bit(s[4]) + 4 * Bit(s[5]) + 8 * Bit(s[6]) + 16 * Bit(s[7]);
    }
  }

  lemma HighBits(s: seq<bool>, i: int)
    requires |s| == 8 && 4 <= i < 8
    ensures BitIn(PackByte(s), i) == s[i]
  {
    var x := PackByte(s);
    if i == 4 { assert x / 16 == Bit(s[4]) + 2 * Bit(s[5]) + 4 * Bit(s[6]) + 8 * Bit(s[7]); }
    else if i == 5 { assert x / 32 == Bit(s[5]) + 2 * Bit(s[6]) + 4 * Bit(s[7]); }
    else if i == 6 { assert x / 64 == Bit(s[6]) + 2 * Bit(s[7]); }
    else { assert x / 128 == Bit(s[7]); }
  }

  lemma PackedBit(s: seq<bool>, i: int)
    requires |s| == 8 && 0 <= i < 8
    ensures BitIn(PackByte(s), i) == s[i]
  {
    hide BitIn, PackByte;
    if i < 2 { LowBits(s, i); } else if i < 4 { MiddleBits(s, i); } else { HighBits(s, i); }
  }

  /** The bytes of a sector of a bitmap. */
  function PackSector(bits: seq<bool>): Sector
    requires |bits| == BITS_PER_SECTOR
  {
    seq(SECTOR_SIZE, i requires 0 <= i < SECTOR_SIZE => PackByte(bits[8 * i..8 * i + 8]))
  }

  /** One byte of a bitmap in memory, taken apart and put together. */
  lemma ByteIsPacked(b: bv8)
    ensures PackByte([Bitmaps.BitSet(b, 0), Bitmaps.BitSet(b, 1), Bitmaps.BitSet(b, 2), Bitmaps.BitSet(b, 3),
                      Bitmaps.BitSet(b, 4), Bitmaps.BitSet(b, 5), Bitmaps.BitSet(b, 6), Bitmaps.BitSet(b, 7)])
            == b as int
  {
  }

  lemma PackedAgain(s: seq<bool>, b: bv8)
    requires |s| == 8 && forall j :: 0 <= j < 8 ==> s[j] == Bitmaps.BitSet(b, j)
    ensures PackByte(s) == b as int
  {
    hide Bitmaps.BitSet, PackByte;
    ByteIsPacked(b);
    assert s == [Bitmaps.BitSet(b, 0), Bitmaps.BitSet(b, 1), Bitmaps.BitSet(b, 2), Bitmaps.BitSet(b, 3),
                 Bitmaps.BitSet(b, 4), Bitmaps.BitSet(b, 5), Bitmaps.BitSet(b, 6), Bitmaps.BitSet(b, 7)];
  }

  /** The sector on the disk has the very bytes of the bitmap in memory. */
  lemma MapBytes(bytes: seq<bv8>, k: int)
    requires |bytes| == SECTOR_SIZE && 0 <= k < SECTOR_SIZE
    ensures PackSector(Bitmaps.Unpack(bytes))[k] == bytes[k] as int
  {
    hide Bitmaps.BitSet, PackByte;
    var bits := Bitmaps.Unpack(bytes);
    var s := bits[8 * k..8 * k + 8];
    forall j | 0 <= j < 8 ensures s[j] == Bitmaps.BitSet(bytes[k], j) {
      assert (8 * k + j) / 8 == k && (8 * k + j) % 8 == j;
    }
    PackedAgain(s, bytes[k]);
  }

  predicate BitOfSector(s: Sector, k: int)
    requires 0 <= k < BITS_PER_SECTOR
  {
    BitIn(s[k / 8], k % 8)
  }

  lemma PackedSector(bits: seq<bool>, k: int)
    requires |bits| == BITS_PER_SECTOR && 0 <= k < BITS_PER_SECTOR
    ensures BitOfSector(PackSector(bits), k) == bits[k]
  {
    var s := bits[8 * (k / 8)..8 * (k / 8) + 8];
    PackedBit(s, k % 8);
    assert s[k % 8] == bits[k];
  }

  /** The sectors from lba on hold the bitmap. */
  ghost predicate HoldsBitmap(disk: seq<Sector>, lba: int, bits: seq<bool>) {
    && |bits| % BITS_PER_SECTOR == 0 && 0 <= lba && lba + |bits| / BITS_PER_SECTOR <= |disk|
    && forall s :: 0 <= s < |bits| / BITS_PER_SECTOR ==>
        disk[lba + s] == PackSector(bits[BITS_PER_SECTOR * s..BITS_PER_SECTOR * s + BITS_PER_SECTOR])
  }

  /** Every bit can be read back from the disk. */
  lemma BitmapReadsBack(disk: seq<Sector>, lba: int, bits: seq<bool>, k: int)
    requires HoldsBitmap(disk, lba, bits) && 0 <= k < |bits|
    ensures lba + k / BITS_PER_SECTOR < |disk|
            && BitOfSector(disk[lba + k / BITS_PER_SECTOR], k % BITS_PER_SECTOR) == bits[k]
  {
    var s := k / BITS_PER_SECTOR;
    var part := bits[BITS_PER_SECTOR * s..BITS_PER_SECTOR * s + BITS_PER_SECTOR];
    PackedSector(part, k % BITS_PER_SECTOR);
    assert part[k % BITS_PER_SECTOR] == bits[k];
  }

  /** `bitmap_sync`: the sector of the bitmap that holds bit k is written. */
  function BitmapSynced(disk: seq<Sector>, lba: int, bits: seq<bool>, k: int): (r: seq<Sector>)
    requires |bits| % BITS_PER_SECTOR == 0 && 0 <= lba && lba + |bits| / BITS_PER_SECTOR <= |disk| && 0 <= k < |bits|
    ensures |r| == |disk|
  {
    var s := k / BITS_PER_SECTOR;
    disk[lba + s := PackSector(bits[BITS_PER_SECTOR * s..BITS_PER_SECTOR * s + BITS_PER_SECTOR])]
  }

  /** Writing the one sector of a changed bit brings the whole bitmap on the disk up to date. */
  lemma SyncIsEnough(disk: seq<Sector>, lba: int, bits: seq<bool>, k: int, v: bool)
    requires HoldsBitmap(disk, lba, bits) && 0 <= k < |bits|
    ensures HoldsBitmap(BitmapSynced(disk, lba, bits[k := v], k), lba, bits[k := v])
  {
    var bits' := bits[k := v];
    var disk' := BitmapSynced(disk, lba, bits', k);
    forall s | 0 <= s < |bits| / BITS_PER_SECTOR
      ensures disk'[lba + s] == PackSector(bits'[BITS_PER_SECTOR * s..BITS_PER_SECTOR * s + BITS_PER_SECTOR])
    {
      if s != k / BITS_PER_SECTOR {
        assert bits'[BITS_PER_SECTOR * s..BITS_PER_SECTOR * s + BITS_PER_SECTOR]
            == bits[BITS_PER_SECTOR * s..BITS_PER_SECTOR * s + BITS_PER_SECTOR];
      }
    }
  }
}
