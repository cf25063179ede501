/** A mounted partition: superblock regions, the two bitmaps in memory and on the disk, and the list
    of open inodes (v1-src/fileSystem/inode.c, v1-src/fileSystem/file.c:65-93). */
module Volumes {
  import opened Common
  import opened Disk
  import opened Inodes
  import Bitmaps

  /** The fields of `struct super_block` that the file system uses after mounting, and the number of
      data sectors. */
  datatype SuperBlock = SuperBlock(blockBitmapLba: int, inodeBitmapLba: int, inodeTableLba: int, dataStartLba: int,
      dataSects: int)

  datatype Volume = Volume(sb: SuperBlock, disk: seq<Sector>, blockMap: seq<bool>, inodeMap: seq<bool>)

  /** [a, a + n) and [b, b + m) share nothing. */
  predicate Apart(a: int, n: int, b: int, m: int) { a + n <= b || b + m <= a }

  function Sects(bits: seq<bool>): int { |bits| / BITS_PER_SECTOR }

  /** The regions lie on the disk and do not overlap; no free bit lies behind the data. */
  ghost predicate Layout(v: Volume) {
    && |v.blockMap| % BITS_PER_SECTOR == 0 && |v.inodeMap| % BITS_PER_SECTOR == 0 && |v.inodeMap| >= MAX_INODES
    && 0 < v.sb.blockBitmapLba && 0 < v.sb.inodeBitmapLba && 0 < v.sb.inodeTableLba && 0 < v.sb.dataStartLba
    && v.sb.blockBitmapLba + Sects(v.blockMap) <= |v.disk| && v.sb.inodeBitmapLba + Sects(v.inodeMap) <= |v.disk|
    && v.sb.inodeTableLba + TABLE_SECTORS <= |v.disk| && v.sb.dataStartLba + v.sb.dataSects <= |v.disk| < 0x1000_0000
    && Apart(v.sb.blockBitmapLba, Sects(v.blockMap), v.sb.inodeBitmapLba, Sects(v.inodeMap))
    && Apart(v.sb.blockBitmapLba, Sects(v.blockMap), v.sb.inodeTableLba, TABLE_SECTORS)
    && Apart(v.sb.inodeBitmapLba, Sects(v.inodeMap), v.sb.inodeTableLba, TABLE_SECTORS)
    && Apart(v.sb.blockBitmapLba, Sects(v.blockMap), v.sb.dataStartLba, v.sb.dataSects)
    && Apart(v.sb.inodeBitmapLba, Sects(v.inodeMap), v.sb.dataStartLba, v.sb.dataSects)
    && Apart(v.sb.inodeTableLba, TABLE_SECTORS, v.sb.dataStartLba, v.sb.dataSects)
    && 0 <= v.sb.dataSects <= |v.blockMap| && forall k :: v.sb.dataSects <= k < |v.blockMap| ==> v.blockMap[k]
  }

  /** Both bitmaps are on the disk as they are in memory. */
  ghost predicate VolumeOk(v: Volume) {
    && Layout(v)
    && HoldsBitmap(v.disk, v.sb.blockBitmapLba, v.blockMap) && HoldsBitmap(v.disk, v.sb.inodeBitmapLba, v.inodeMap)
  }

  /** l is a sector of the data region, whose first sector the root directory has. */
  predicate IsData(v: Volume, l: int) { v.sb.dataStartLba <= l < v.sb.dataStartLba + v.sb.dataSects }

  predicate InTable(v: Volume, l: int) { v.sb.inodeTableLba <= l < v.sb.inodeTableLba + TABLE_SECTORS }

  lemma BitmapUntouched(disk: seq<Sector>, disk': seq<Sector>, lba: int, bits: seq<bool>)
    requires HoldsBitmap(disk, lba, bits) && |disk'| == |disk|
    requires forall l :: lba <= l < lba + Sects(bits) ==> disk'[l] == disk[l]
    ensures HoldsBitmap(disk', lba, bits)
  {
    hide PackSector;
  }

  /** Writing a sector that belongs to neither bitmap. */
  lemma WriteKeepsBitmaps(v: Volume, v': Volume)
    requires v'.sb == v.sb && v'.blockMap == v.blockMap && v'.inodeMap == v.inodeMap && |v'.disk| == |v.disk|
    requires forall l :: 0 <= l < |v.disk| && !IsData(v, l) && !InTable(v, l) ==> v'.disk[l] == v.disk[l]
    requires VolumeOk(v)
    ensures VolumeOk(v')
  {
    BitmapUntouched(v.disk, v'.disk, v.sb.blockBitmapLba, v.blockMap);
    BitmapUntouched(v.disk, v'.disk, v.sb.inodeBitmapLba, v.inodeMap);
  }

  /** The volume after a block's bit was written in memory and its sector on the disk. */
  function BlockBitWritten(v: Volume, k: int, b: bool): (r: Volume)
    requires Layout(v) && 0 <= k < |v.blockMap|
    ensures |r.disk| == |v.disk|
  {
    var m := v.blockMap[k := b];
    v.(blockMap := m, disk := BitmapSynced(v.disk, v.sb.blockBitmapLba, m, k))
  }

  function InodeBitWritten(v: Volume, k: int, b: bool): (r: Volume)
    requires Layout(v) && 0 <= k < |v.inodeMap|
    ensures |r.disk| == |v.disk|
  {
    var m := v.inodeMap[k := b];
    v.(inodeMap := m, disk := BitmapSynced(v.disk, v.sb.inodeBitmapLba, m, k))
  }

  /** Nothing in the inode table and in the data has changed. */
  ghost predicate SameTableAndData(v: Volume, v': Volume) {
    v'.sb == v.sb && |v'.disk| == |v.disk| && forall l :: 0 <= l < |v.disk| && (IsData(v, l) || InTable(v, l)) ==>
        v'.disk[l] == v.disk[l]
  }

  lemma SyncedOnly(disk: seq<Sector>, lba: int, bits: seq<bool>, k: int)
    requires |bits| % BITS_PER_SECTOR == 0 && 0 <= lba && lba + Sects(bits) <= |disk| && 0 <= k < |bits|
    ensures var d := BitmapSynced(disk, lba, bits, k);
            |d| == |disk| && forall l :: 0 <= l < |disk| && !(lba <= l < lba + Sects(bits)) ==> d[l] == disk[l]
  {
  }

  lemma BlockBitKeeps(v: Volume, k: int, b: bool)
    requires 0 <= k < |v.blockMap| && (k < v.sb.dataSects || b)
    requires VolumeOk(v)
    ensures var v' := BlockBitWritten(v, k, b); VolumeOk(v') && SameTableAndData(v, v')
  {
    hide HoldsBitmap, BitmapSynced;
    var v' := BlockBitWritten(v, k, b);
    SyncedOnly(v.disk, v.sb.blockBitmapLba, v'.blockMap, k);
    SyncIsEnough(v.disk, v.sb.blockBitmapLba, v.blockMap, k, b);
    BitmapUntouched(v.disk, v'.disk, v.sb.inodeBitmapLba, v.inodeMap);
  }

  lemma InodeBitKeeps(v: Volume, k: int, b: bool)
    requires 0 <= k < |v.inodeMap|
    requires VolumeOk(v)
    ensures var v' := InodeBitWritten(v, k, b); VolumeOk(v') && SameTableAndData(v, v')
  {
    hide HoldsBitmap, BitmapSynced;
    var v' := InodeBitWritten(v, k, b);
    SyncedOnly(v.disk, v.sb.inodeBitmapLba, v'.inodeMap, k);
    SyncIsEnough(v.disk, v.sb.inodeBitmapLba, v.inodeMap, k, b);
    BitmapUntouched(v.disk, v'.disk, v.sb.blockBitmapLba, v.blockMap);
  }

  // ---------- the blocks of an inode ----------

  /** The 128 entries of an indirect block. */
  function Entries(disk: seq<Sector>, l: int): (r: seq<Word>)
    requires 0 <= l < |disk|
    ensures |r| == 128
  {
    BytesWords(disk[l], 128)
  }

  /** The 12 direct blocks and, with an indirect table, its 128 entries; 0 stands for no block. */
  function AllBlocks(disk: seq<Sector>, i: Inode): (r: seq<Word>)
    requires IsInode(i) && i.sectors[12] < |disk|
    ensures |r| == if i.sectors[12] == 0 then 12 else 140
  {
    if i.sectors[12] == 0 then i.sectors[..12] else i.sectors[..12] + Entries(disk, i.sectors[12])
  }

  /** l is a block of the inode: data or the indirect table. */
  predicate IsBlockOf(disk: seq<Sector>, i: Inode, l: int)
    requires IsInode(i) && i.sectors[12] < |disk|
  {
    l != 0 && (l in AllBlocks(disk, i) || l == i.sectors[12])
  }

  /** All blocks are data sectors behind the first. */
  ghost predicate BlocksInData(v: Volume, i: Inode) {
    && IsInode(i) && i.sectors[12] < |v.disk|
    && forall l :: IsBlockOf(v.disk, i, l) ==> IsData(v, l) && l != v.sb.dataStartLba
  }

  // ---------- the list of open inodes ----------

  function Count(opens: map<Word, nat>, no: Word): nat { if no in opens then opens[no] else 0 }

  /** One number is open that many times, and the others as often as before. */
  ghost predicate CountSet(o: map<Word, nat>, o': map<Word, nat>, no: Word, c: nat) { o' == o[no := c] }

  /** At most one inode for each number, with the count of its opens less its closes; every number
      that is open has one. */
  ghost predicate ListOk(xs: seq<Inode>, opens: map<Word, nat>) {
    && (forall a, b :: 0 <= a < b < |xs| ==> xs[a].no != xs[b].no)
    && (forall a :: 0 <= a < |xs| ==>
        && IsInode(xs[a]) && xs[a].no < MAX_INODES
        && xs[a].openCnts == Count(opens, xs[a].no) > 0)
    && (forall no: Word :: Count(opens, no) > 0 ==> IsListed(xs, no))
  }

  /** Number and count are the same; both are inodes. */
  predicate SameIdentity(i: Inode, i': Inode) {
    i'.no == i.no && i'.openCnts == i.openCnts && (IsInode(i) ==> IsInode(i'))
  }

  lemma SameListOk(xs: seq<Inode>, ys: seq<Inode>, opens: map<Word, nat>)
    requires ListOk(xs, opens) && |ys| == |xs| && forall a :: 0 <= a < |xs| ==> SameIdentity(xs[a], ys[a])
    ensures ListOk(ys, opens)
  {
    forall no: Word | Count(opens, no) > 0 ensures IsListed(ys, no) {
      assert IsListed(xs, no);
      var a :| 0 <= a < |xs| && xs[a].no == no;
      assert ys[a].no == no;
    }
  }

  predicate IsListed(xs: seq<Inode>, no: Word) { exists a :: 0 <= a < |xs| && xs[a].no == no }

  lemma CountedMore(xs: seq<Inode>, opens: map<Word, nat>, k: nat)
    requires ListOk(xs, opens) && k < |xs| && xs[k].openCnts < 0xFFFF_FFFF
    ensures ListOk(xs[k := xs[k].(openCnts := xs[k].openCnts + 1)], opens[xs[k].no := xs[k].openCnts + 1])
  {
    var ys := xs[k := xs[k].(openCnts := xs[k].openCnts + 1)];
    forall no: Word | Count(opens[xs[k].no := xs[k].openCnts + 1], no) > 0 ensures IsListed(ys, no) {
      assert IsListed(xs, no);
      var a :| 0 <= a < |xs| && xs[a].no == no;
      assert ys[a].no == no;
    }
  }

  lemma Pushed(xs: seq<Inode>, opens: map<Word, nat>, i: Inode)
    requires ListOk(xs, opens) && IsInode(i) && i.no < MAX_INODES && i.openCnts == 1 && !IsListed(xs, i.no)
    ensures ListOk([i] + xs, opens[i.no := 1])
  {
    var ys := [i] + xs;
    forall no: Word | Count(opens[i.no := 1], no) > 0 ensures IsListed(ys, no) {
      if no == i.no {
        assert ys[0].no == no;
      } else {
        assert IsListed(xs, no);
      var a :| 0 <= a < |xs| && xs[a].no == no;
        assert ys[a + 1].no == no;
      }
    }
  }

  lemma CountedLess(xs: seq<Inode>, opens: map<Word, nat>, k: nat)
    requires ListOk(xs, opens) && k < |xs| && xs[k].openCnts > 1
    ensures ListOk(xs[k := xs[k].(openCnts := xs[k].openCnts - 1)], opens[xs[k].no := xs[k].openCnts - 1])
  {
    var ys := xs[k := xs[k].(openCnts := xs[k].openCnts - 1)];
    forall no: Word | Count(opens[xs[k].no := xs[k].openCnts - 1], no) > 0 ensures IsListed(ys, no) {
      assert IsListed(xs, no);
      var a :| 0 <= a < |xs| && xs[a].no == no;
      assert ys[a].no == no;
    }
  }

  lemma TakenOut(xs: seq<Inode>, opens: map<Word, nat>, k: nat)
    requires ListOk(xs, opens) && k < |xs| && xs[k].openCnts == 1
    ensures ListOk(xs[..k] + xs[k + 1..], opens[xs[k].no := 0])
  {
    hide IsInode;
    var ys := xs[..k] + xs[k + 1..];
    forall a | 0 <= a < |ys| ensures ys[a] in xs && ys[a].no != xs[k].no { BehindTheGap(xs, k, a); }
    forall a, b | 0 <= a < b < |ys| ensures ys[a].no != ys[b].no {
      BehindTheGap(xs, k, a);
      BehindTheGap(xs, k, b);
    }
    forall no: Word | Count(opens[xs[k].no := 0], no) > 0 ensures IsListed(ys, no) {
      assert IsListed(xs, no);
      StillListed(xs, k, no);
    }
  }

  lemma BehindTheGap(xs: seq<Inode>, k: nat, a: int)
    requires k < |xs| && 0 <= a < |xs| - 1
    ensures (xs[..k] + xs[k + 1..])[a] == xs[if a < k then a else a + 1]
  {
  }

  lemma StillListed(xs: seq<Inode>, k: nat, no: Word)
    requires k < |xs| && IsListed(xs, no) && xs[k].no != no
    ensures IsListed(xs[..k] + xs[k + 1..], no)
  {
    var a :| 0 <= a < |xs| && xs[a].no == no;
    BehindTheGap(xs, k, if a < k then a else a - 1);
  }

  ghost function CurrentIn(xs: seq<Inode>, disk: seq<Sector>, tableLba: int, no: Word): Inode
    requires TableFits(disk, tableLba) && no < MAX_INODES
  {
    if IsListed(xs, no) then var a :| 0 <= a < |xs| && xs[a].no == no; xs[a] else Stored(disk, tableLba, no)
  }

  lemma NotListed(xs: seq<Inode>, disk: seq<Sector>, tableLba: int, no: Word)
    requires TableFits(disk, tableLba) && no < MAX_INODES && !IsListed(xs, no)
    ensures CurrentIn(xs, disk, tableLba, no) == Stored(disk, tableLba, no)
  {
  }

  lemma CurrentIs(xs: seq<Inode>, opens: map<Word, nat>, disk: seq<Sector>, tableLba: int, k: nat)
    requires ListOk(xs, opens) && TableFits(disk, tableLba) && k < |xs| && xs[k].no < MAX_INODES
    ensures CurrentIn(xs, disk, tableLba, xs[k].no) == xs[k]
  {
    assert IsListed(xs, xs[k].no);
  }

  // ---------- the partition in memory ----------

  /** An inode in memory. */
  class MemInode {
    var i: Inode

    constructor (i: Inode)
      ensures this.i == i
    {
      this.i := i;
    }
  }

  class Partition {
    const sb: SuperBlock
    var disk: seq<Sector>
    var blockMap: seq<bool>
    var inodeMap: seq<bool>
    var openInodes: seq<MemInode>
    ghost var opens: map<Word, nat>   // inode_open calls less inode_close calls, by inode number

    constructor (v: Volume)
      requires VolumeOk(v)
      ensures V() == v && Valid() && openInodes == [] && opens == map[]
    {
      sb, disk, blockMap, inodeMap, openInodes, opens := v.sb, v.disk, v.blockMap, v.inodeMap, [], map[];
    }

    ghost function V(): Volume
      reads this
    {
      Volume(sb, disk, blockMap, inodeMap)
    }

    ghost function Nodes(): (r: seq<Inode>)
      reads this`openInodes, openInodes
      ensures |r| == |openInodes| && forall k :: 0 <= k < |r| ==> r[k] == openInodes[k].i
    {
      var ns := openInodes;
      seq(|ns|, k requires 0 <= k < |ns| reads ns => ns[k].i)
    }

    ghost predicate NodesOk()
      reads this`openInodes, this`opens, openInodes
    {
      && (forall a, b :: 0 <= a < b < |openInodes| ==> openInodes[a] != openInodes[b])
      && ListOk(Nodes(), opens)
    }

    ghost predicate Valid()
      reads this, openInodes
    {
      VolumeOk(V()) && NodesOk()
    }

    /** The list of open inodes stays exact when one inode gets another size and other blocks. */
    twostate lemma NodeChanged(node: MemInode)
      requires old(NodesOk()) && openInodes == old(openInodes) && opens == old(opens)
      requires forall n :: n in openInodes && n != node ==> n.i == old(n.i)
      requires SameIdentity(old(node.i), node.i)
      ensures NodesOk()
    {
      SameListOk(old(Nodes()), Nodes(), opens);
    }

    /** `block_bitmap_alloc`: the first clear bit, which is then set; a full map stops the kernel. */
    method BlockBitmapAlloc() returns (lba: int)
      requires Layout(V()) && exists k :: 0 <= k < |blockMap| && !blockMap[k]
      modifies this`blockMap
      ensures var k := lba - sb.dataStartLba;
              && 0 <= k < sb.dataSects && !old(blockMap)[k] && blockMap == old(blockMap)[k := true]
              && forall j :: 0 <= j < k ==> old(blockMap)[j]
    {
      var bitIdx := Bitmaps.FirstFit(blockMap, 1);
      ghost var k :| 0 <= k < |blockMap| && !blockMap[k];
      assert Bitmaps.Clear(blockMap, k, 1);
      forall j | 0 <= j < bitIdx ensures blockMap[j] {
        assert !Bitmaps.Clear(blockMap, j, 1);
      }
      blockMap := blockMap[bitIdx := true];
      lba := sb.dataStartLba + bitIdx;
    }

    /** `bitmap_sync` for the block bitmap. */
    method SyncBlockBit(bitIdx: int)
      requires |blockMap| % BITS_PER_SECTOR == 0 && 0 <= sb.blockBitmapLba
               && sb.blockBitmapLba + Sects(blockMap) <= |disk| && 0 <= bitIdx < |blockMap|
      modifies this`disk
      ensures disk == BitmapSynced(old(disk), sb.blockBitmapLba, blockMap, bitIdx)
    {
      var offSec := bitIdx / BITS_PER_SECTOR;
      disk := disk[sb.blockBitmapLba
          + offSec := PackSector(blockMap[offSec * BITS_PER_SECTOR..offSec * BITS_PER_SECTOR + BITS_PER_SECTOR])];
    }

    /** `bitmap_sync` for the inode bitmap. */
    method SyncInodeBit(bitIdx: int)
      requires |inodeMap| % BITS_PER_SECTOR == 0 && 0 <= sb.inodeBitmapLba
               && sb.inodeBitmapLba + Sects(inodeMap) <= |disk| && 0 <= bitIdx < |inodeMap|
      modifies this`disk
      ensures disk == BitmapSynced(old(disk), sb.inodeBitmapLba, inodeMap, bitIdx)
    {
      var offSec := bitIdx / BITS_PER_SECTOR;
      disk := disk[sb.inodeBitmapLba
          + offSec := PackSector(inodeMap[offSec * BITS_PER_SECTOR..offSec * BITS_PER_SECTOR + BITS_PER_SECTOR])];
    }

    /** `inode_sync` with a buffer of bufSize bytes, which must take two sectors if the slot does. */
    method InodeSync(i: Inode, bufSize: int)
      requires TableFits(disk, sb.inodeTableLba) && IsInode(i)
      requires bufSize >= if Locate(sb.inodeTableLba, i.no % 0x100).twoSec then 2 * SECTOR_SIZE else SECTOR_SIZE
      modifies this`disk
      ensures disk == Synced(old(disk), sb.inodeTableLba, i)
      ensures LaidOut(disk, sb.inodeTableLba, i.no % 0x100, i.no, i.size, i.sectors)
              && SlotOnly(old(disk), disk, sb.inodeTableLba, i.no % 0x100)
    {
      hide LaidOut, SlotOnly;
      SyncedLayout(disk, sb.inodeTableLba, i);
      var pos := Locate(sb.inodeTableLba, i.no % 0x100);
      LocateIsRight(sb.inodeTableLba, i.no % 0x100);
      var pure := Encode(i.(openCnts := 0, writeDeny := false));
      var inodeBuf := SlotSectors(disk, pos);
      inodeBuf := Patched(inodeBuf, pos.offSize, pure);
      disk := SectorsPut(disk, pos, inodeBuf);
    }

    /** `inode_delete`. */
    method InodeDelete(no: int)
      requires TableFits(disk, sb.inodeTableLba) && 0 <= no < MAX_INODES
      modifies this`disk
      ensures disk == Deleted(old(disk), sb.inodeTableLba, no)
      ensures forall x :: 76 * no <= x < 76 * no + 76 ==> TableByte(disk, sb.inodeTableLba, x) == 0
      ensures SlotOnly(old(disk), disk, sb.inodeTableLba, no)
    {
      hide SlotOnly, TableByte;
      DeletedLayout(disk, sb.inodeTableLba, no);
      assert no < 4096;
      var pos := Locate(sb.inodeTableLba, no);
      LocateIsRight(sb.inodeTableLba, no);
      var inodeBuf := SlotSectors(disk, pos);
      inodeBuf := Patched(inodeBuf, pos.offSize, Zeros(INODE_SIZE));
      disk := SectorsPut(disk, pos, inodeBuf);
    }

    /** An open inode's fields are written. */
    method SetNode(k: nat, i: Inode)
      requires k < |openInodes| && forall a, b :: 0 <= a < b < |openInodes| ==> openInodes[a] != openInodes[b]
      modifies openInodes[k]
      ensures openInodes[k].i == i && Nodes() == old(Nodes())[k := i]
    {
      openInodes[k].i := i;
    }

    /** The place of a number in the list of open inodes. */
    method FindOpen(no: Word) returns (k: nat)
      ensures k <= |openInodes| && (k < |openInodes| ==> openInodes[k].i.no == no)
      ensures k == |openInodes| ==> !IsListed(Nodes(), no)
    {
      k := 0;
      while k < |openInodes|
        invariant k <= |openInodes|
        invariant forall a :: 0 <= a < k ==> openInodes[a].i.no != no
      {
        if openInodes[k].i.no == no {
          return;
        }
        k := k + 1;
      }
    }

    /** What inode_open finds under a number: the inode in memory if it is open, else the one on
        the disk. */
    ghost function Current(no: Word): Inode
      requires TableFits(disk, sb.inodeTableLba) && no < MAX_INODES
      reads this, openInodes
    {
      CurrentIn(Nodes(), disk, sb.inodeTableLba, no)
    }

    /** The inode of a number as the disk has it. */
    method LoadInode(no: Word) returns (i: Inode)
      requires TableFits(disk, sb.inodeTableLba) && no < MAX_INODES
      ensures i == Stored(disk, sb.inodeTableLba, no)
      ensures IsWords(i, disk, sb.inodeTableLba, no)
    {
      hide TableWord;
      StoredLayout(disk, sb.inodeTableLba, no);
      var pos := Locate(sb.inodeTableLba, no);
      LocateIsRight(sb.inodeTableLba, no);
      i := Decode(SlotSectors(disk, pos)[pos.offSize..pos.offSize + INODE_SIZE]);
    }

    /** An inode that is not open is read into memory and put in front of the list. */
    method AddNode(no: Word) returns (node: MemInode)
      requires TableFits(disk, sb.inodeTableLba) && no < MAX_INODES && NodesOk() && !IsListed(Nodes(), no)
               && Stored(disk, sb.inodeTableLba, no).no == no
      modifies this`openInodes, this`opens
      ensures NodesOk() && fresh(node) && openInodes == [node] + old(openInodes) && opens == old(opens)[no := 1]
      ensures node.i == Stored(disk, sb.inodeTableLba, no).(openCnts := 1)
    {
      hide Encode, Decode, ListOk, IsWords, SlotRead;
      ghost var xs := Nodes();
      var i := LoadInode(no);
      i := i.(openCnts := 1);
      Pushed(xs, opens, i);
      node := new MemInode(i);
      openInodes := [node] + openInodes;
      opens := opens[no := 1];
      assert Nodes() == [i] + xs;
    }

    /** One open more of an inode that is in memory. */
    method CountOpen(k: nat) returns (node: MemInode)
      requires NodesOk() && k < |openInodes| && TableFits(disk, sb.inodeTableLba)
      requires openInodes[k].i.no < MAX_INODES && Count(opens, openInodes[k].i.no) < 0xFFFF_FFFF
      modifies this`opens, openInodes[k]
      ensures NodesOk() && node == openInodes[k] && node.i == old(node.i).(openCnts := Count(old(opens), node.i.no) + 1)
      ensures opens == old(opens)[node.i.no := Count(old(opens), node.i.no) + 1] && Count(old(opens), node.i.no) > 0
      ensures old(node.i) == old(Current(node.i.no))
    {
      hide ListOk, CurrentIn;
      ghost var xs := Nodes();
      ListAt(xs, opens, k, k);
      CurrentIs(xs, opens, disk, sb.inodeTableLba, k);
      node := openInodes[k];
      CountedMore(xs, opens, k);
      SetNode(k, node.i.(openCnts := node.i.openCnts + 1));
      opens := opens[node.i.no := node.i.openCnts];
    }

    /** `inode_open`: the one inode in memory, or a new one read from the disk. */
    method InodeOpen(no: Word) returns (node: MemInode)
      requires Valid() && no < MAX_INODES && Count(opens, no) < 0xFFFF_FFFF && Current(no).no == no
      modifies this`openInodes, this`opens, openInodes
      ensures Valid() && node in openInodes && node.i.no == no
      ensures CountSet(old(opens), opens, no, Count(old(opens), no) + 1)
      ensures forall n :: n in old(openInodes) ==>
              n in openInodes && n.i == old(n.i).(openCnts := n.i.openCnts) && (n != node ==> n.i == old(n.i))
      ensures node.i == old(Current(no)).(openCnts := Count(old(opens), no) + 1)
      ensures Count(old(opens), no) > 0 ==> openInodes == old(openInodes)
      ensures Count(old(opens), no) == 0 ==>
              && fresh(node) && openInodes == [node] + old(openInodes)
              && node.i == Stored(disk, sb.inodeTableLba, no).(openCnts := 1)
    {
      hide VolumeOk, Encode, Decode, ListOk, CurrentIn;
      ghost var xs := Nodes();
      TableIsThere(V());
      OpenIsListed(xs, opens, no);
      var k := FindOpen(no);
      if k < |openInodes| {
        node := CountOpen(k);
      } else {
        NotListed(xs, disk, sb.inodeTableLba, no);
        node := AddNode(no);
      }
    }

    /** What is open is in memory; what is not is on the disk. */
    lemma CurrentOfOpen(node: MemInode)
      requires NodesOk() && node in openInodes && TableFits(disk, sb.inodeTableLba) && node.i.no < MAX_INODES
      ensures Current(node.i.no) == node.i
    {
      var j :| 0 <= j < |openInodes| && openInodes[j] == node;
      CurrentIs(Nodes(), opens, disk, sb.inodeTableLba, j);
    }

    lemma CurrentOfClosed(no: Word)
      requires NodesOk() && Count(opens, no) == 0 && TableFits(disk, sb.inodeTableLba) && no < MAX_INODES
      ensures Current(no) == Stored(disk, sb.inodeTableLba, no)
    {
      OpenIsListed(Nodes(), opens, no);
      NotListed(Nodes(), disk, sb.inodeTableLba, no);
    }

    /** `list_remove` on the list of open inodes. */
    method RemoveNode(k: nat)
      requires k < |openInodes| && forall a, b :: 0 <= a < b < |openInodes| ==> openInodes[a] != openInodes[b]
      modifies this`openInodes
      ensures forall a, b :: 0 <= a < b < |openInodes| ==> openInodes[a] != openInodes[b]
      ensures forall n :: n in openInodes <==> n in old(openInodes) && n != old(openInodes)[k]
      ensures Nodes() == old(Nodes())[..k] + old(Nodes())[k + 1..]
    {
      ghost var before := openInodes;
      openInodes := openInodes[..k] + openInodes[k + 1..];
      forall n | n in before && n != before[k] ensures n in openInodes {
        var a :| 0 <= a < |before| && before[a] == n;
        assert openInodes[if a < k then a else a - 1] == n;
      }
    }

    /** `inode_close`: the last close takes the inode out of memory. */
    method InodeClose(node: MemInode)
      requires Valid() && node in openInodes
      modifies this`openInodes, this`opens, node
      ensures Valid() && old(node.i.openCnts) > 0
      ensures CountSet(old(opens), opens, old(node.i.no), old(node.i.openCnts) - 1)
      ensures node in openInodes <==> old(node.i.openCnts) > 1
      ensures node.i == old(node.i).(openCnts := old(node.i.openCnts) - 1)
      ensures forall n :: n != node ==> (n in openInodes <==> n in old(openInodes))
    {
      hide VolumeOk, ListOk;
      ghost var xs := Nodes();
      ghost var j :| 0 <= j < |openInodes| && openInodes[j] == node;
      assert IsListed(xs, node.i.no) by { assert xs[j].no == node.i.no; }
      var k := FindOpen(node.i.no);
      ListAt(xs, opens, j, k);
      var cnt := node.i.openCnts - 1;
      opens := opens[node.i.no := cnt];
      SetNode(k, node.i.(openCnts := cnt));
      if cnt == 0 {
        TakenOut(xs, old(opens), k);
        assert Nodes()[..k] == xs[..k] && Nodes()[k + 1..] == xs[k + 1..];
        RemoveNode(k);
      } else {
        CountedLess(xs, old(opens), k);
      }
    }
  }

  lemma TableIsThere(v: Volume)
    requires VolumeOk(v)
    ensures TableFits(v.disk, v.sb.inodeTableLba)
  {
  }

  lemma ListAt(xs: seq<Inode>, opens: map<Word, nat>, a: nat, b: nat)
    requires ListOk(xs, opens) && a < |xs| && b < |xs|
    ensures xs[a].no == xs[b].no ==> a == b
    ensures xs[a].openCnts == Count(opens, xs[a].no) > 0
  {
  }

  lemma OpenIsListed(xs: seq<Inode>, opens: map<Word, nat>, no: Word)
    requires ListOk(xs, opens)
    ensures Count(opens, no) > 0 <==> IsListed(xs, no)
  {
  }

  /** A close takes back an open. */
  lemma OpensBack(o0: map<Word, nat>, o1: map<Word, nat>, o2: map<Word, nat>, no: Word, c: nat)
    requires CountSet(o0, o1, no, c + 1) && CountSet(o1, o2, no, c) && c == Count(o0, no)
    ensures forall x: Word :: Count(o2, x) == Count(o0, x)
  {
  }
}
