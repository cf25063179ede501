/** Inodes on the disk (v1-src/fileSystem/inode.c:18-58, v1-src/fileSystem/inode.c:130-148): 76-byte
    slots that follow each other in the inode table and may straddle two sectors. */
module Inodes {
  import opened Common
  import opened Disk

  const INODE_SIZE := 76
  const MAX_INODES := 4096
  const TABLE_SECTORS := 608

  /** `struct inode` without its list tag. */
  datatype Inode = Inode(no: Word, size: Word, openCnts: Word, writeDeny: bool, sectors: seq<Word>)

  predicate IsInode(i: Inode) { |i.sectors| == 13 }

  // ---------- words and bytes ----------

  /** Words one after the other as bytes. */
  function WordsBytes(ws: seq<Word>): (r: seq<Byte>)
    ensures |r| == 4 * |ws|
  {
    seq(4 * |ws|, k requires 0 <= k < 4 * |ws| => Bytes32(ws[k / 4])[k % 4])
  }

  /** n words read from bytes. */
  function BytesWords(b: seq<Byte>, n: nat): (r: seq<Word>)
    requires 4 * n <= |b|
    ensures |r| == n
  {
    seq(n, j requires 0 <= j < n => Word32(b, 4 * j))
  }

  lemma WordIndex(j: int, k: int)
    requires 0 <= k < 4
    ensures (4 * j + k) / 4 == j && (4 * j + k) % 4 == k
  {
  }

  lemma WordsRoundTrip(ws: seq<Word>)
    ensures BytesWords(WordsBytes(ws), |ws|) == ws
  {
    var b := WordsBytes(ws);
    hide Word32, Bytes32;
    forall j | 0 <= j < |ws| ensures Word32(b, 4 * j) == ws[j] {
      var s := b[4 * j..4 * j + 4];
      forall k | 0 <= k < 4 ensures s[k] == Bytes32(ws[j])[k] { WordIndex(j, k); }
      WordRoundTrip(ws[j], b, 4 * j);
    }
  }

  /** The persistent form: `i_open_cnts`, `write_deny` and the list tag are written as 0. */
  function Pure(i: Inode): Inode { i.(openCnts := 0, writeDeny := false) }

  /** The fields in their order, the list tag last. */
  function InodeWords(i: Inode): (ws: seq<Word>)
    requires IsInode(i)
    ensures |ws| == 19
  {
    [i.no, i.size, i.openCnts, if i.writeDeny then 1 else 0] + i.sectors + [0, 0]
  }

  function Encode(i: Inode): (r: seq<Byte>)
    requires IsInode(i)
    ensures |r| == INODE_SIZE
  {
    WordsBytes(InodeWords(i))
  }

  function Decode(b: seq<Byte>): (i: Inode)
    requires |b| == INODE_SIZE
    ensures IsInode(i)
  {
    var ws := BytesWords(b, 19);
    Inode(ws[0], ws[1], ws[2], ws[3] != 0, ws[4..17])
  }

  lemma InodeRoundTrip(i: Inode)
    requires IsInode(i)
    ensures Decode(Encode(i)) == i
  {
    hide WordsBytes, BytesWords;
    WordsRoundTrip(InodeWords(i));
    assert InodeWords(i)[4..17] == i.sectors;
  }

  // ---------- slots ----------

  datatype Position = Position(twoSec: bool, secLba: int, offSize: int)

  /** `inode_locate`. */
  function Locate(tableLba: int, no: int): Position {
    var offSize := no * INODE_SIZE;
    var offInSec := offSize % SECTOR_SIZE;
    Position(SECTOR_SIZE - offInSec < INODE_SIZE, tableLba + offSize / SECTOR_SIZE, offInSec)
  }

  /** The table lies on the disk. */
  predicate TableFits(disk: seq<Sector>, tableLba: int) {
    0 <= tableLba && tableLba + TABLE_SECTORS <= |disk|
  }

  /** Byte x of the inode table. */
  function TableByte(disk: seq<Sector>, tableLba: int, x: int): Byte
    requires TableFits(disk, tableLba) && 0 <= x < SECTOR_SIZE * TABLE_SECTORS
  {
    disk[tableLba + x / SECTOR_SIZE][x % SECTOR_SIZE]
  }

  /** Two sectors are read exactly when the slot straddles a sector boundary, and the slot lies in
      the table and, from `offSize` on, in the sectors that are read. */
  lemma LocateIsRight(tableLba: int, no: int)
    requires 0 <= no < MAX_INODES
    ensures var p := Locate(tableLba, no);
            && (p.twoSec <==> no * INODE_SIZE / SECTOR_SIZE != (no * INODE_SIZE + INODE_SIZE - 1) / SECTOR_SIZE)
            && SECTOR_SIZE * (p.secLba - tableLba) + p.offSize == no * INODE_SIZE && 0 <= p.offSize
            && p.offSize + INODE_SIZE <= (if p.twoSec then 2 * SECTOR_SIZE else SECTOR_SIZE)
            && tableLba <= p.secLba && p.secLba + (if p.twoSec then 2 else 1) <= tableLba + TABLE_SECTORS
  {
  }

  /** Different inodes have slots that share no byte. */
  lemma SlotsDisjoint(n: int, m: int)
    requires n != m
    ensures n * INODE_SIZE + INODE_SIZE <= m * INODE_SIZE || m * INODE_SIZE + INODE_SIZE <= n * INODE_SIZE
  {
  }

  /** The sector or two that are read for a slot. */
  function SlotSectors(disk: seq<Sector>, p: Position): (r: seq<Byte>)
    requires 0 <= p.secLba && p.secLba + (if p.twoSec then 2 else 1) <= |disk|
    ensures |r| == if p.twoSec then 2 * SECTOR_SIZE else SECTOR_SIZE
  {
    var first: seq<Byte> := disk[p.secLba];
    if p.twoSec then first + disk[p.secLba + 1] else first
  }

  /** The same sectors written from a buffer. */
  function SectorsPut(disk: seq<Sector>, p: Position, buf: seq<Byte>): (r: seq<Sector>)
    requires 0 <= p.secLba && p.secLba + (if p.twoSec then 2 else 1) <= |disk|
    requires |buf| == if p.twoSec then 2 * SECTOR_SIZE else SECTOR_SIZE
    ensures |r| == |disk|
  {
    if p.twoSec then disk[p.secLba := buf[..SECTOR_SIZE]][p.secLba + 1 := buf[SECTOR_SIZE..]] else disk[p.secLba := buf]
  }

  function SlotRead(disk: seq<Sector>, tableLba: int, no: int): (r: seq<Byte>)
    requires TableFits(disk, tableLba) && 0 <= no < MAX_INODES
    ensures |r| == INODE_SIZE
  {
    LocateIsRight(tableLba, no);
    var p := Locate(tableLba, no);
    SlotSectors(disk, p)[p.offSize..p.offSize + INODE_SIZE]
  }

  function SlotWritten(disk: seq<Sector>, tableLba: int, no: int, data: seq<Byte>): (r: seq<Sector>)
    requires TableFits(disk, tableLba) && 0 <= no < MAX_INODES && |data| == INODE_SIZE
    ensures |r| == |disk|
  {
    LocateIsRight(tableLba, no);
    var p := Locate(tableLba, no);
    SectorsPut(disk, p, Patched(SlotSectors(disk, p), p.offSize, data))
  }

  /** Reading a slot reads the inode's 76 bytes of the table. */
  lemma SlotReadBytes(disk: seq<Sector>, tableLba: int, no: int)
    requires TableFits(disk, tableLba) && 0 <= no < MAX_INODES
    ensures forall k :: 0 <= k < INODE_SIZE ==>
            SlotRead(disk, tableLba, no)[k] == TableByte(disk, tableLba, no * INODE_SIZE + k)
  {
    LocateIsRight(tableLba, no);
    var p := Locate(tableLba, no);
    forall k | 0 <= k < INODE_SIZE
      ensures SlotRead(disk, tableLba, no)[k] == TableByte(disk, tableLba, no * INODE_SIZE + k)
    {
      SplitAddress(p.secLba - tableLba, p.offSize + k);
    }
  }

  /** Where byte b behind sector s lies. */
  lemma SplitAddress(s: int, b: int)
    requires 0 <= b < 2 * SECTOR_SIZE
    ensures (SECTOR_SIZE * s + b) / SECTOR_SIZE == (if b < SECTOR_SIZE then s else s + 1)
    ensures (SECTOR_SIZE * s + b) % SECTOR_SIZE == (if b < SECTOR_SIZE then b else b - SECTOR_SIZE)
  {
  }

  /** Writing a slot changes its 76 bytes and no other byte of the table, and no sector outside. */
  lemma SlotWrittenBytes(disk: seq<Sector>, tableLba: int, no: int, data: seq<Byte>)
    requires TableFits(disk, tableLba) && 0 <= no < MAX_INODES && |data| == INODE_SIZE
    ensures var d := SlotWritten(disk, tableLba, no, data);
            && (forall x :: 0 <= x < SECTOR_SIZE * TABLE_SECTORS ==>
                  TableByte(d, tableLba, x) == if no * INODE_SIZE <= x < no * INODE_SIZE + INODE_SIZE
                      then data[x - no * INODE_SIZE] else TableByte(disk, tableLba, x))
            && forall l :: 0 <= l < |disk| && !(tableLba <= l < tableLba + TABLE_SECTORS) ==> d[l] == disk[l]
  {
    LocateIsRight(tableLba, no);
    var p := Locate(tableLba, no);
    var d := SlotWritten(disk, tableLba, no, data);
    forall x | 0 <= x < SECTOR_SIZE * TABLE_SECTORS
      ensures TableByte(d, tableLba, x) == if no * INODE_SIZE <= x < no * INODE_SIZE + INODE_SIZE
              then data[x - no * INODE_SIZE] else TableByte(disk, tableLba, x)
    {
      hide Locate;
      assert x == SECTOR_SIZE * (x / SECTOR_SIZE) + x % SECTOR_SIZE;
    }
  }

  /** A slot reads back what was written to it; writing it leaves every other slot alone. */
  lemma SlotRoundTrip(disk: seq<Sector>, tableLba: int, no: int, data: seq<Byte>, m: int)
    requires TableFits(disk, tableLba) && 0 <= no < MAX_INODES && |data| == INODE_SIZE && 0 <= m < MAX_INODES
    ensures SlotRead(SlotWritten(disk, tableLba, no, data), tableLba, m) == if m == no then data
            else SlotRead(disk, tableLba, m)
  {
    var d := SlotWritten(disk, tableLba, no, data);
    SlotWrittenBytes(disk, tableLba, no, data);
    SlotReadBytes(d, tableLba, m);
    SlotReadBytes(disk, tableLba, m);
    hide SlotRead, SlotWritten, TableByte;
    if m != no { SlotsDisjoint(m, no); }
    forall k | 0 <= k < INODE_SIZE
      ensures SlotRead(d, tableLba, m)[k] == (if m == no then data else SlotRead(disk, tableLba, m))[k]
    {
      assert SlotRead(d, tableLba, m)[k] == TableByte(d, tableLba, m * INODE_SIZE + k);
    }
  }

  // ---------- inode_sync, reload, inode_delete ----------

  /** The inode a slot holds. */
  function Stored(disk: seq<Sector>, tableLba: int, no: int): (i: Inode)
    requires TableFits(disk, tableLba) && 0 <= no < MAX_INODES
    ensures IsInode(i)
  {
    Decode(SlotRead(disk, tableLba, no))
  }

  /** `inode_sync`: the number is taken modulo 256 before the slot is located. */
  function Synced(disk: seq<Sector>, tableLba: int, i: Inode): (r: seq<Sector>)
    requires TableFits(disk, tableLba) && IsInode(i)
    ensures |r| == |disk|
  {
    SlotWritten(disk, tableLba, i.no % 0x100, Encode(Pure(i)))
  }

  function Deleted(disk: seq<Sector>, tableLba: int, no: int): (r: seq<Sector>)
    requires TableFits(disk, tableLba) && 0 <= no < MAX_INODES
    ensures |r| == |disk|
  {
    SlotWritten(disk, tableLba, no, Zeros(INODE_SIZE))
  }

  /** After inode_sync the slot of the number's low byte holds the persistent fields, and every other
      slot what it held. */
  lemma SyncedSlots(disk: seq<Sector>, tableLba: int, i: Inode, m: int)
    requires TableFits(disk, tableLba) && IsInode(i) && 0 <= m < MAX_INODES
    ensures Stored(Synced(disk, tableLba, i), tableLba, m) == if m == i.no % 0x100 then Pure(i)
            else Stored(disk, tableLba, m)
  {
    hide SlotRead, SlotWritten, Encode, Decode;
    SlotRoundTrip(disk, tableLba, i.no % 0x100, Encode(Pure(i)), m);
    InodeRoundTrip(Pure(i));
  }

  /** The sync and reload round trip works exactly for the numbers below 256; above them it works
      only when there was nothing to write. */
  lemma ReloadIff(disk: seq<Sector>, tableLba: int, i: Inode)
    requires TableFits(disk, tableLba) && IsInode(i) && i.no < MAX_INODES
    ensures Stored(Synced(disk, tableLba, i), tableLba, i.no) == Pure(i)
       <==> (i.no < 0x100 || Stored(disk, tableLba, i.no) == Pure(i))
  {
    hide Synced, Stored;
    SyncedSlots(disk, tableLba, i, i.no);
  }

  /** A number of 256 or more writes over the slot of another inode. */
  lemma SyncClobbers(disk: seq<Sector>, tableLba: int, i: Inode)
    requires TableFits(disk, tableLba) && IsInode(i) && 0x100 <= i.no < MAX_INODES
    ensures var m := i.no % 0x100; m != i.no && Stored(Synced(disk, tableLba, i), tableLba, m).no == i.no
  {
    hide Synced, Stored;
    SyncedSlots(disk, tableLba, i, i.no % 0x100);
  }

  lemma DeletedSlots(disk: seq<Sector>, tableLba: int, no: int, m: int)
    requires TableFits(disk, tableLba) && 0 <= no < MAX_INODES && 0 <= m < MAX_INODES
    ensures SlotRead(Deleted(disk, tableLba, no), tableLba, m) == if m == no then Zeros(INODE_SIZE)
            else SlotRead(disk, tableLba, m)
  {
    hide SlotRead, SlotWritten;
    SlotRoundTrip(disk, tableLba, no, Zeros(INODE_SIZE), m);
  }

  // ---------- the layout of the table, byte by byte ----------

  /** Bytes x to x + 3 of the inode table as a number, the low byte first. */
  function TableWord(disk: seq<Sector>, tableLba: int, x: int): int
    requires TableFits(disk, tableLba) && 0 <= x && x + 4 <= SECTOR_SIZE * TABLE_SECTORS
  {
    FourBytes(TableByte(disk, tableLba, x), TableByte(disk, tableLba, x + 1), TableByte(disk, tableLba, x + 2),
              TableByte(disk, tableLba, x + 3))
  }

  /** Slot `no` of the table holds the number, the size and the sectors at their offsets in the struct, and
      zeros where the struct has the count of opens, `write_deny` and the list tag. */
  ghost predicate LaidOut(disk: seq<Sector>, tableLba: int, slot: int, no: Word, size: Word, sectors: seq<Word>)
    requires TableFits(disk, tableLba) && 0 <= slot < MAX_INODES && |sectors| == 13
  {
    && TableWord(disk, tableLba, 76 * slot) == no
    && TableWord(disk, tableLba, 76 * slot + 4) == size
    && (forall k :: 0 <= k < 13 ==> TableWord(disk, tableLba, 76 * slot + 16 + 4 * k) == sectors[k])
    && (forall x :: 76 * slot + 8 <= x < 76 * slot + 16 || 76 * slot + 68 <= x < 76 * slot + 76 ==>
          TableByte(disk, tableLba, x) == 0)
  }

  /** The fields of an inode are the words at their offsets in slot `slot`. */
  ghost predicate IsWords(i: Inode, disk: seq<Sector>, tableLba: int, slot: int)
    requires TableFits(disk, tableLba) && 0 <= slot < MAX_INODES
  {
    && i.no == TableWord(disk, tableLba, 76 * slot)
    && i.size == TableWord(disk, tableLba, 76 * slot + 4)
    && i.openCnts == TableWord(disk, tableLba, 76 * slot + 8)
    && (i.writeDeny <==> TableWord(disk, tableLba, 76 * slot + 12) != 0)
    && |i.sectors| == 13
    && forall k :: 0 <= k < 13 ==> i.sectors[k] == TableWord(disk, tableLba, 76 * slot + 16 + 4 * k)
  }

  /** The bytes of the table outside one slot, and every sector outside the table, are as before. */
  ghost predicate SlotOnly(disk: seq<Sector>, disk': seq<Sector>, tableLba: int, slot: int)
    requires TableFits(disk, tableLba) && 0 <= slot < MAX_INODES
  {
    && |disk'| == |disk|
    && (forall x :: 0 <= x < 76 * slot || 76 * slot + 76 <= x < SECTOR_SIZE * TABLE_SECTORS ==>
          TableByte(disk', tableLba, x) == TableByte(disk, tableLba, x))
    && (forall l :: 0 <= l < |disk| && !(tableLba <= l < tableLba + TABLE_SECTORS) ==> disk'[l] == disk[l])
  }

  lemma WordIsFourBytes(b: seq<Byte>, at: int)
    requires 0 <= at && at + 4 <= |b|
    ensures Word32(b, at) == FourBytes(b[at], b[at + 1], b[at + 2], b[at + 3])
  {
  }

  lemma SlotByte(disk: seq<Sector>, tableLba: int, slot: int, at: int)
    requires TableFits(disk, tableLba) && 0 <= slot < MAX_INODES && 0 <= at < INODE_SIZE
    ensures SlotRead(disk, tableLba, slot)[at] == TableByte(disk, tableLba, 76 * slot + at)
  {
    SlotReadBytes(disk, tableLba, slot);
    hide SlotRead, TableByte;
  }

  /** Word j of a slot. */
  lemma SlotWord(disk: seq<Sector>, tableLba: int, slot: int, j: int)
    requires TableFits(disk, tableLba) && 0 <= slot < MAX_INODES && 0 <= j < 19
    ensures TableWord(disk, tableLba, 76 * slot + 4 * j) == Word32(SlotRead(disk, tableLba, slot), 4 * j)
  {
    WordIsFourBytes(SlotRead(disk, tableLba, slot), 4 * j);
    SlotByte(disk, tableLba, slot, 4 * j);
    SlotByte(disk, tableLba, slot, 4 * j + 1);
    SlotByte(disk, tableLba, slot, 4 * j + 2);
    SlotByte(disk, tableLba, slot, 4 * j + 3);
    hide SlotRead, TableByte, Word32, FourBytes;
  }

  lemma EncodedWord(i: Inode, j: int)
    requires IsInode(i) && 0 <= j < 19
    ensures Word32(Encode(i), 4 * j) == InodeWords(i)[j]
  {
    WordsRoundTrip(InodeWords(i));
    hide Word32, Bytes32, InodeWords;
    assert BytesWords(Encode(i), 19)[j] == Word32(Encode(i), 4 * j);
  }

  /** A word of 0 is four bytes of 0. */
  lemma ZeroWord(disk: seq<Sector>, tableLba: int, x: int, k: int)
    requires TableFits(disk, tableLba) && 0 <= x && x + 4 <= SECTOR_SIZE * TABLE_SECTORS && 0 <= k < 4
    requires TableWord(disk, tableLba, x) == 0
    ensures TableByte(disk, tableLba, x + k) == 0
  {
    hide TableByte, FourBytes;
    NoBytes(TableByte(disk, tableLba, x), TableByte(disk, tableLba, x + 1), TableByte(disk, tableLba, x + 2),
            TableByte(disk, tableLba, x + 3));
    if k == 0 {} else if k == 1 {} else if k == 2 {} else {}
  }

  lemma NoBytes(b0: Byte, b1: Byte, b2: Byte, b3: Byte)
    requires FourBytes(b0, b1, b2, b3) == 0
    ensures b0 == b1 == b2 == b3 == 0
  {
  }

  /** What `inode_sync` leaves on the disk, without the codecs. */
  lemma SyncedLayout(disk: seq<Sector>, tableLba: int, i: Inode)
    requires TableFits(disk, tableLba) && IsInode(i)
    ensures LaidOut(Synced(disk, tableLba, i), tableLba, i.no % 0x100, i.no, i.size, i.sectors)
    ensures SlotOnly(disk, Synced(disk, tableLba, i), tableLba, i.no % 0x100)
  {
    hide TableWord, TableByte, SlotRead, SlotWritten, Encode, Word32;
    var slot, d := i.no % 0x100, Synced(disk, tableLba, i);
    SlotRoundTrip(disk, tableLba, slot, Encode(Pure(i)), slot);
    SlotWrittenBytes(disk, tableLba, slot, Encode(Pure(i)));
    forall j | 0 <= j < 19 ensures TableWord(d, tableLba, 76 * slot + 4 * j) == InodeWords(Pure(i))[j] {
      SlotWord(d, tableLba, slot, j);
      EncodedWord(Pure(i), j);
    }
    var ws := InodeWords(Pure(i));
    forall k | 0 <= k < 13 ensures TableWord(d, tableLba, 76 * slot + 16 + 4 * k) == i.sectors[k] {
      assert ws[4 + k] == i.sectors[k] && 76 * slot + 16 + 4 * k == 76 * slot + 4 * (4 + k);
    }
    assert ws[0] == i.no && ws[1] == i.size && ws[2] == 0 && ws[3] == 0 && ws[17] == 0 && ws[18] == 0;
    forall x | 76 * slot + 8 <= x < 76 * slot + 16 || 76 * slot + 68 <= x < 76 * slot + 76
      ensures TableByte(d, tableLba, x) == 0
    {
      var j := (x - 76 * slot) / 4;
      assert j == 2 || j == 3 || j == 17 || j == 18;
      ZeroWord(d, tableLba, 76 * slot + 4 * j, (x - 76 * slot) % 4);
    }
  }

  /** The inode a slot holds has the words at these offsets as its fields. */
  lemma StoredLayout(disk: seq<Sector>, tableLba: int, slot: int)
    requires TableFits(disk, tableLba) && 0 <= slot < MAX_INODES
    ensures IsWords(Stored(disk, tableLba, slot), disk, tableLba, slot)
  {
    hide TableWord, TableByte, SlotRead, Word32;
    forall j | 0 <= j < 19
      ensures TableWord(disk, tableLba, 76 * slot + 4 * j) == BytesWords(SlotRead(disk, tableLba, slot), 19)[j]
    {
      SlotWord(disk, tableLba, slot, j);
    }
    forall k | 0 <= k < 13
      ensures Stored(disk, tableLba, slot).sectors[k] == TableWord(disk, tableLba, 76 * slot + 16 + 4 * k)
    {
      assert 76 * slot + 16 + 4 * k == 76 * slot + 4 * (4 + k);
    }
    assert 76 * slot + 4 * 1 == 76 * slot + 4 && 76 * slot + 4 * 0 == 76 * slot;
    assert 76 * slot + 4 * 2 == 76 * slot + 8 && 76 * slot + 4 * 3 == 76 * slot + 12;
  }

  /** A deleted slot is 76 bytes of 0. */
  lemma DeletedLayout(disk: seq<Sector>, tableLba: int, slot: int)
    requires TableFits(disk, tableLba) && 0 <= slot < MAX_INODES
    ensures forall x :: 76 * slot <= x < 76 * slot + 76 ==> TableByte(Deleted(disk, tableLba, slot), tableLba, x) == 0
    ensures SlotOnly(disk, Deleted(disk, tableLba, slot), tableLba, slot)
  {
    hide SlotWritten, TableByte;
    SlotWrittenBytes(disk, tableLba, slot, Zeros(INODE_SIZE));
  }

  /** The same table sectors hold the same slots. */
  lemma SameTableSameSlot(d: seq<Sector>, d': seq<Sector>, tableLba: int, m: int)
    requires TableFits(d, tableLba) && |d'| == |d| && 0 <= m < MAX_INODES
    requires forall l :: tableLba <= l < tableLba + TABLE_SECTORS ==> d'[l] == d[l]
    ensures SlotRead(d', tableLba, m) == SlotRead(d, tableLba, m)
  {
    LocateIsRight(tableLba, m);
  }
}
