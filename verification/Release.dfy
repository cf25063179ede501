/** `inode_release` (v1-src/fileSystem/inode.c:150-189): the blocks and the slot of a deleted file
    are given back. */
module Release {
  import opened Common
  import opened Disk
  import opened Inodes
  import opened Volumes

  /** The bit of block l is cleared, in memory and on the disk. */
  function BlockFreed(v: Volume, l: int): (r: Volume)
    requires Layout(v) && IsData(v, l)
    ensures |r.disk| == |v.disk|
  {
    BlockBitWritten(v, l - v.sb.dataStartLba, false)
  }

  ghost predicate AllInData(v: Volume, ls: seq<Word>) {
    forall j :: 0 <= j < |ls| && ls[j] != 0 ==> IsData(v, ls[j]) && ls[j] != v.sb.dataStartLba
  }

  /** What changes when the blocks of ls are freed: exactly their bits. */
  ghost predicate Frees(v: Volume, v': Volume, ls: seq<Word>) {
    && VolumeOk(v') && SameTableAndData(v, v') && v'.inodeMap == v.inodeMap && |v'.blockMap| == |v.blockMap|
    && forall k :: 0 <= k < |v.blockMap| ==> (v'.blockMap[k] <==> v.blockMap[k] && !Named(v, ls, k))
  }

  /** Bit k is that of a block in ls. */
  predicate Named(v: Volume, ls: seq<Word>, k: int) {
    exists j :: 0 <= j < |ls| && ls[j] != 0 && ls[j] == v.sb.dataStartLba + k
  }

  lemma FreesNothing(v: Volume)
    requires VolumeOk(v)
    ensures Frees(v, v, [])
  {
  }

  /** One block more. */
  lemma FreesMore(v: Volume, u: Volume, ls: seq<Word>, l: Word)
    requires Layout(v) && Frees(v, u, ls) && AllInData(v, [l])
    ensures Layout(u) && (l != 0 ==> IsData(u, l) && Frees(v, BlockFreed(u, l), ls + [l]))
            && (l == 0 ==> Frees(v, u, ls + [l]))
  {
    hide HoldsBitmap, BitmapSynced;
    assert AllInData(v, [l]) ==> l != 0 ==> IsData(v, l) by { assert [l][0] == l; }
    forall k ensures Named(v, ls + [l], k) <==> Named(v, ls, k) || (l != 0 && l == v.sb.dataStartLba + k) {
      NamedMore(v, ls, l, k);
    }
    if l != 0 {
      BlockBitKeeps(u, l - u.sb.dataStartLba, false);
    }
  }

  lemma NamedMore(v: Volume, ls: seq<Word>, l: Word, k: int)
    ensures Named(v, ls + [l], k) <==> Named(v, ls, k) || (l != 0 && l == v.sb.dataStartLba + k)
  {
    var xs := ls + [l];
    if Named(v, ls, k) {
      var j :| 0 <= j < |ls| && ls[j] != 0 && ls[j] == v.sb.dataStartLba + k;
      assert xs[j] == ls[j];
    }
    if l != 0 && l == v.sb.dataStartLba + k {
      assert xs[|ls|] == l;
    }
  }

  /** The table block first, then the others. */
  function BlocksToFree(disk: seq<Sector>, i: Inode): seq<Word>
    requires IsInode(i) && i.sectors[12] < |disk|
  {
    [i.sectors[12]] + AllBlocks(disk, i)
  }

  /** Those are the blocks of the file. */
  lemma NamedIsBlock(v: Volume, i: Inode, k: int)
    requires IsInode(i) && i.sectors[12] < |v.disk| && 0 <= k && 0 < v.sb.dataStartLba
    ensures Named(v, BlocksToFree(v.disk, i), k) <==> IsBlockOf(v.disk, i, v.sb.dataStartLba + k)
  {
    var all := AllBlocks(v.disk, i);
    var ls := [i.sectors[12]] + all;
    var l := v.sb.dataStartLba + k;
    if l in all {
      var j :| 0 <= j < |all| && all[j] == l;
      assert ls[j + 1] == l;
    }
    if l == i.sectors[12] { assert ls[0] == l; }
  }

  /** The whole effect of `inode_release` on the volume. */
  ghost predicate Released(v: Volume, v': Volume, no: int, i: Inode)
    requires Layout(v) && 0 <= no < MAX_INODES && IsInode(i) && i.sectors[12] < |v.disk|
  {
    && VolumeOk(v') && v'.sb == v.sb && |v'.disk| == |v.disk| && |v'.blockMap| == |v.blockMap|
    && v'.inodeMap == v.inodeMap[no := false]
    && (forall k :: 0 <= k < |v.blockMap| ==>
        (v'.blockMap[k] <==> v.blockMap[k] && !IsBlockOf(v.disk, i, v.sb.dataStartLba + k)))
    && SlotRead(v'.disk, v.sb.inodeTableLba, no) == Zeros(INODE_SIZE)
    && (forall m :: 0 <= m < MAX_INODES && m != no ==>
        SlotRead(v'.disk, v.sb.inodeTableLba, m) == SlotRead(v.disk, v.sb.inodeTableLba, m))
    && forall l :: 0 <= l < |v.disk| && IsData(v, l) ==> v'.disk[l] == v.disk[l]
  }

  /** Freeing, clearing the inode's bit and zeroing its slot add up to that. */
  lemma ReleaseAddsUp(v: Volume, u: Volume, no: int, i: Inode)
    requires VolumeOk(v) && 0 <= no < MAX_INODES && IsInode(i) && i.sectors[12] < |v.disk|
    requires Frees(v, u, BlocksToFree(v.disk, i))
    ensures Layout(u) && no < |u.inodeMap|
    ensures var w := InodeBitWritten(u, no, false);
            Layout(w) && Released(v, w.(disk := Deleted(w.disk, w.sb.inodeTableLba, no)), no, i)
  {
    hide HoldsBitmap, BitmapSynced, SlotRead, SlotWritten, AllBlocks;
    InodeBitKeeps(u, no, false);
    var w := InodeBitWritten(u, no, false);
    var d := Deleted(w.disk, w.sb.inodeTableLba, no);
    SlotWrittenBytes(w.disk, w.sb.inodeTableLba, no, Zeros(INODE_SIZE));
    WriteKeepsBitmaps(w, w.(disk := d));
    forall m | 0 <= m < MAX_INODES
      ensures SlotRead(d, v.sb.inodeTableLba, m) == if m == no then Zeros(INODE_SIZE)
              else SlotRead(v.disk, v.sb.inodeTableLba, m)
    {
      DeletedSlots(w.disk, w.sb.inodeTableLba, no, m);
      SameTableSameSlot(v.disk, w.disk, v.sb.inodeTableLba, m);
    }
    forall k | 0 <= k < |v.blockMap|
      ensures Named(v, BlocksToFree(v.disk, i), k) <==> IsBlockOf(v.disk, i, v.sb.dataStartLba + k)
    {
      NamedIsBlock(v, i, k);
    }
  }

  lemma CurrentBlocks(v: Volume, cur: Inode, i: Inode)
    requires IsInode(cur) && i == cur.(openCnts := i.openCnts) && BlocksInData(v, cur)
    ensures IsInode(i) && BlocksInData(v, i) && i.sectors[12] < |v.disk| && cur.sectors[12] < |v.disk|
    ensures AllInData(v, BlocksToFree(v.disk, i))
  {
    hide Entries;
    var all := AllBlocks(v.disk, i);
    var ls := BlocksToFree(v.disk, i);
    assert AllBlocks(v.disk, cur) == all;
    forall l ensures IsBlockOf(v.disk, i, l) <==> IsBlockOf(v.disk, cur, l) {}
    forall j | 0 <= j < |ls| && ls[j] != 0 ensures IsData(v, ls[j]) && ls[j] != v.sb.dataStartLba {
      if j > 0 { assert ls[j] == all[j - 1]; }
      assert IsBlockOf(v.disk, cur, ls[j]);
    }
  }

  /** Opens do not matter to what is released. */
  lemma ReleasedAnyOpens(v: Volume, v': Volume, no: int, i: Inode, cur: Inode)
    requires VolumeOk(v) && 0 <= no < MAX_INODES && IsInode(i) && i == cur.(openCnts := i.openCnts)
             && i.sectors[12] < |v.disk|
    requires Released(v, v', no, i)
    ensures Released(v, v', no, cur)
  {
    hide VolumeOk, SlotRead, Entries;
    assert AllBlocks(v.disk, cur) == AllBlocks(v.disk, i);
  }

  lemma PartOfVolume(v: Volume, u: Volume, ls: seq<Word>)
    requires VolumeOk(v) && Frees(v, u, ls)
    ensures Layout(u) && TableFits(u.disk, u.sb.inodeTableLba) && |u.disk| == |v.disk| && u.sb == v.sb
            && u.inodeMap == v.inodeMap && |u.inodeMap| >= MAX_INODES
  {
    hide HoldsBitmap;
  }

  /** The bits of the table block and of the file's blocks are cleared one after the other. */
  method FreeBlocks(part: Partition, i: Inode)
    requires VolumeOk(part.V()) && IsInode(i) && i.sectors[12] < |part.disk|
             && AllInData(part.V(), BlocksToFree(part.disk, i))
    modifies part`disk, part`blockMap
    ensures Frees(old(part.V()), part.V(), BlocksToFree(old(part.disk), i))
  {
    hide VolumeOk, HoldsBitmap, BitmapSynced, Frees, Layout, Entries;
    ghost var v := part.V();
    var blocks := i.sectors[..12];
    var table := i.sectors[12];
    FreesNothing(v);
    FreesNext(v, v, [], BlocksToFree(part.disk, i), table);
    if table != 0 {
      blocks := blocks + Entries(part.disk, table);
      FreeOne(part, table);
    }
    assert [] + [table] == [table] && [table] + blocks[..0] == [table];
    ghost var ls := [table] + blocks;
    assert ls == BlocksToFree(v.disk, i);
    var blockIdx := 0;
    while blockIdx < |blocks|
      invariant 0 <= blockIdx <= |blocks| && Frees(v, part.V(), [table] + blocks[..blockIdx])
    {
      FreesNext(v, part.V(), [table] + blocks[..blockIdx], ls, blocks[blockIdx]);
      assert [table] + blocks[..blockIdx] + [blocks[blockIdx]] == [table] + blocks[..blockIdx + 1];
      if blocks[blockIdx] != 0 {
        FreeOne(part, blocks[blockIdx]);
      }
      blockIdx := blockIdx + 1;
    }
    assert blocks[..blockIdx] == blocks;
  }

  lemma FreesNext(v: Volume, u: Volume, done: seq<Word>, ls: seq<Word>, l: Word)
    requires VolumeOk(v) && Frees(v, u, done) && AllInData(v, ls) && l in ls
    ensures Layout(u) && u.sb == v.sb && (l == 0 ==> Frees(v, u, done + [l]))
    ensures l != 0 ==> IsData(u, l) && l != u.sb.dataStartLba && Frees(v, BlockFreed(u, l), done + [l])
  {
    hide Frees, HoldsBitmap, BitmapSynced;
    assert AllInData(v, [l]);
    FreesMore(v, u, done, l);
    PartOfVolume(v, u, done);
  }

  method FreeOne(part: Partition, l: Word)
    requires Layout(part.V()) && IsData(part.V(), l) && l != part.sb.dataStartLba
    modifies part`disk, part`blockMap
    ensures part.V() == BlockFreed(old(part.V()), l)
  {
    hide BitmapSynced;
    var blockBitmapIdx := l - part.sb.dataStartLba;
    assert blockBitmapIdx > 0;
    part.blockMap := part.blockMap[blockBitmapIdx := false];
    part.SyncBlockBit(blockBitmapIdx);
  }

  /** The inode's bit and slot are cleared. */
  method ClearInode(part: Partition, no: Word)
    requires Layout(part.V()) && no < MAX_INODES
    modifies part`disk, part`inodeMap
    ensures var w := InodeBitWritten(old(part.V()), no, false);
            part.V() == w.(disk := Deleted(w.disk, w.sb.inodeTableLba, no))
  {
    hide BitmapSynced, SlotRead, SlotWritten;
    part.inodeMap := part.inodeMap[no := false];
    part.SyncInodeBit(no);
    part.InodeDelete(no);
  }

  /** The part of `inode_release` between opening and closing the inode. */
  method ReleaseOnDisk(part: Partition, no: Word, i: Inode)
    requires no < MAX_INODES && IsInode(i) && i.sectors[12] < |part.disk|
    requires AllInData(part.V(), BlocksToFree(part.disk, i))
    requires VolumeOk(part.V())
    modifies part`disk, part`blockMap, part`inodeMap
    ensures VolumeOk(part.V()) && Released(old(part.V()), part.V(), no, i)
  {
    hide HoldsBitmap, BitmapSynced, Frees, AllBlocks, Encode, Decode, Released, SlotRead, SlotWritten, Layout;
    hide VolumeOk;
    ghost var v := part.V();
    TableIsThere(v);
    FreeBlocks(part, i);
    ghost var u := part.V();
    PartOfVolume(v, u, BlocksToFree(v.disk, i));
    ReleaseAddsUp(v, u, no, i);
    ClearInode(part, no);
    StillOk(v, part.V(), no, i);
  }

  /** `inode_release`: exactly the file's direct blocks, table block and table entries lose their
      bits, in memory and on the disk; the inode's bit and slot are cleared; nothing else changes. */
  method InodeRelease(part: Partition, no: Word)
    requires part.Valid() && no < MAX_INODES && Count(part.opens, no) < 0xFFFF_FFFF && part.Current(no).no == no
    requires IsInode(part.Current(no)) && BlocksInData(part.V(), part.Current(no))
    modifies part, part.openInodes
    ensures part.Valid() && Released(old(part.V()), part.V(), no, old(part.Current(no)))
    ensures forall x: Word :: Count(part.opens, x) == old(Count(part.opens, x))
    ensures forall n :: n in old(part.openInodes) && n.i.no != no ==> n in part.openInodes && n.i == old(n.i)
  {
    hide VolumeOk, ListOk, HoldsBitmap, BitmapSynced, AllBlocks, Encode, Decode, Released, BlocksInData, Layout;
    hide CountSet, Count, Partition.NodesOk, Partition.Current;
    ghost var v := part.V();
    TableIsThere(v);
    ghost var cur := part.Current(no);
    ghost var o0 := part.opens;
    var node := part.InodeOpen(no);
    ghost var o1 := part.opens;
    var i := node.i;
    CurrentBlocks(v, cur, i);
    ReleaseOnDisk(part, no, i);
    ReleasedAnyOpens(v, part.V(), no, i, cur);
    assert part.opens == o1 && node.i == i;
    assert i.no == no && i.openCnts - 1 == Count(o0, no);
    part.InodeClose(node);
    OpensBack(o0, o1, part.opens, no, i.openCnts - 1);
  }

  lemma StillOk(v: Volume, v': Volume, no: int, i: Inode)
    requires VolumeOk(v) && 0 <= no < MAX_INODES && IsInode(i) && i.sectors[12] < |v.disk| && Released(v, v', no, i)
    ensures VolumeOk(v')
  {
  }
}
