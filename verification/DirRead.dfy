/** `dir_read` and `dir_is_empty` (v1-src/fileSystem/direct.c:300-352): enumerating a directory. */
module DirRead {
  import opened Common
  import opened Disk
  import opened Inodes
  import opened Volumes
  import opened Directories
  import opened DirStore

  /** `struct dir`. */
  class Dir {
    const inode: MemInode
    var dirPos: Word

    constructor (node: MemInode)
      ensures inode == node && dirPos == 0
    {
      inode, dirPos := node, 0;
    }
  }

  lemma LiveNext(xs: seq<Entry>, n: int)
    requires 0 <= n < |xs|
    ensures Live(xs[..n + 1]) == Live(xs[..n]) + if IsLive(xs[n]) then [xs[n]] else []
  {
    assert xs[..n + 1][..n] == xs[..n];
  }

  /** The live entries of a prefix come first. */
  lemma {:induction false} LivePrefix(xs: seq<Entry>, n: int)
    requires 0 <= n <= |xs|
    ensures Live(xs[..n]) <= Live(xs)
  {
    if n == |xs| {
      assert xs[..n] == xs;
    } else {
      LivePrefix(xs[..|xs| - 1], n);
      assert xs[..|xs| - 1][..n] == xs[..n];
    }
  }

  /** Free slots add nothing. */
  lemma {:induction false} FreeAddsNothing(xs: seq<Entry>, n: int, m: int)
    requires 0 <= n <= m <= |xs| && forall j :: n <= j < m ==> !IsLive(xs[j])
    ensures Live(xs[..m]) == Live(xs[..n])
    decreases m
  {
    if n < m {
      FreeAddsNothing(xs, n, m - 1);
      LiveNext(xs, m - 1);
    }
  }

  /** The live entry at slot n is the one numbered by those before it. */
  lemma LiveIndex(xs: seq<Entry>, n: int)
    requires 0 <= n < |xs| && IsLive(xs[n])
    ensures |Live(xs[..n])| < |Live(xs)| && Live(xs)[|Live(xs[..n])|] == xs[n]
  {
    LiveNext(xs, n);
    LivePrefix(xs, n + 1);
    assert Live(xs[..n + 1])[|Live(xs[..n])|] == xs[n];
  }

  /** There is another live entry behind the first k, so the scan has not reached the end. */
  lemma MoreToCome(xs: seq<Entry>, blockIdx: int, pos: int)
    requires |xs| == SLOTS && 0 <= blockIdx <= 12
    requires ENTRY_SIZE * |Live(xs[..PER_SECTOR * blockIdx])| <= pos < ENTRY_SIZE * |Live(xs)|
    ensures blockIdx < 12
  {
    assert xs[..SLOTS] == xs;
  }

  /** `dir_read`: the live entry at the position, counting live entries only and skipping missing
      blocks and free slots; NULL behind the last. The scan stays within the blocks. */
  method DirReadNext(part: Partition, dir: Dir) returns (found: bool, dirE: Entry)
    requires DirOk(part.V(), dir.inode.i) && dir.dirPos % ENTRY_SIZE == 0
    modifies dir`dirPos
    ensures found <==> old(dir.dirPos) < dir.inode.i.size
    ensures found ==>
            && dirE == Live(Slots(part.disk, dir.inode.i))[old(dir.dirPos) / ENTRY_SIZE]
            && dir.dirPos == old(dir.dirPos) + ENTRY_SIZE
    ensures !found ==> dir.dirPos == old(dir.dirPos)
  {
    hide VolumeOk, SlotsOk, SectorSlots, EntryAt, Live, BlocksUsed, Slots, BlockSlots;
    ghost var i, xs, pos := dir.inode.i, Slots(part.disk, dir.inode.i), dir.dirPos;
    SizeFits(part.V(), i);
    dirE := ZeroEntry();
    var allBlocks := PaddedBlocks(dir.inode.i);
    var blockIdx, curDirEntryPos := 0, 0;
    StartOfScan(xs, pos);
    while dir.dirPos < dir.inode.i.size
      invariant dir.dirPos == pos && 0 <= blockIdx <= 12 && (pos < i.size ==> blockIdx < 12)
      invariant curDirEntryPos == ENTRY_SIZE * |Live(xs[..PER_SECTOR * blockIdx])| <= pos
      decreases 12 - blockIdx
    {
      if allBlocks[blockIdx] == 0 {
        MissingBlock(part.disk, i, blockIdx);
        FreeAddsNothing(xs, PER_SECTOR * blockIdx, PER_SECTOR * (blockIdx + 1));
        blockIdx := blockIdx + 1;
        MoreToCome(xs, blockIdx, pos);
        continue;
      }
      var buf: Sector := part.disk[allBlocks[blockIdx]];
      var dirEntryIdx := 0;
      while dirEntryIdx < PER_SECTOR
        invariant 0 <= dirEntryIdx <= PER_SECTOR && dir.dirPos == pos
        invariant curDirEntryPos == ENTRY_SIZE * |Live(xs[..PER_SECTOR * blockIdx + dirEntryIdx])| <= pos
      {
        SlotIsEntry(part.disk, i, blockIdx, dirEntryIdx);
        LiveNext(xs, PER_SECTOR * blockIdx + dirEntryIdx);
        if EntryAt(buf, dirEntryIdx).ftype != 0 {
          if curDirEntryPos < dir.dirPos {
            curDirEntryPos := curDirEntryPos + ENTRY_SIZE;
            NextMultiple(curDirEntryPos - ENTRY_SIZE, pos);
            dirEntryIdx := dirEntryIdx + 1;
            continue;
          }
          assert curDirEntryPos == dir.dirPos;
          LiveIndex(xs, PER_SECTOR * blockIdx + dirEntryIdx);
          dir.dirPos := dir.dirPos + ENTRY_SIZE;
          return true, EntryAt(buf, dirEntryIdx);
        }
        dirEntryIdx := dirEntryIdx + 1;
      }
      blockIdx := blockIdx + 1;
      MoreToCome(xs, blockIdx, pos);
    }
    found := false;
  }

  lemma StartOfScan(xs: seq<Entry>, pos: int)
    ensures xs[..0] == [] && Live([]) == []
  {
  }

  lemma NextMultiple(a: int, b: int)
    requires a % ENTRY_SIZE == 0 && b % ENTRY_SIZE == 0 && a < b
    ensures a + ENTRY_SIZE <= b
  {
  }

  /** From position 0 on, repeated dir_read gives every live entry exactly once, in slot order. */
  method ReadWhole(part: Partition, dir: Dir) returns (all: seq<Entry>)
    requires DirOk(part.V(), dir.inode.i) && dir.dirPos == 0
    modifies dir`dirPos
    ensures all == Live(Slots(part.disk, dir.inode.i)) && dir.dirPos == dir.inode.i.size
  {
    hide VolumeOk, SlotsOk, Live, BlocksUsed, Slots;
    ghost var live := Live(Slots(part.disk, dir.inode.i));
    SizeFits(part.V(), dir.inode.i);
    all := [];
    var more := true;
    while more
      invariant dir.dirPos == ENTRY_SIZE * |all| && |all| <= |live| && all == live[..|all|]
      invariant !more ==> dir.dirPos >= dir.inode.i.size
      decreases if more then 1 + |live| - |all| else 0
    {
      var e;
      more, e := DirReadNext(part, dir);
      if more {
        all := all + [e];
      }
    }
  }

  /** The entries that are read are the map, each name once. */
  lemma LiveAreNames(xs: seq<Entry>)
    requires SlotsOk(xs)
    ensures forall k :: 0 <= k < |Live(xs)| ==>
            CString(Live(xs)[k].name) in Names(xs)
            && Names(xs)[CString(Live(xs)[k].name)] == (Live(xs)[k].no, Live(xs)[k].ftype)
    ensures forall k, l :: 0 <= k < l < |Live(xs)| ==> CString(Live(xs)[k].name) != CString(Live(xs)[l].name)
    ensures forall name :: name in Names(xs) ==> exists k :: 0 <= k < |Live(xs)| && CString(Live(xs)[k].name) == name
  {
    hide CString, Live, SlotsOk, Names;
    SlotsLength(xs);
    forall k | 0 <= k < |Live(xs)|
      ensures CString(Live(xs)[k].name) in Names(xs)
              && Names(xs)[CString(Live(xs)[k].name)] == (Live(xs)[k].no, Live(xs)[k].ftype)
    {
      var n := SlotOfLive(xs, k);
      NameOfSlot(xs, n);
    }
    forall k, l | 0 <= k < l < |Live(xs)| ensures CString(Live(xs)[k].name) != CString(Live(xs)[l].name) {
      var n := SlotOfLive(xs, k);
      var m := SlotOfLive(xs, l);
      OneSlotPerName(xs, n, m);
    }
    forall name | name in Names(xs) ensures exists k :: 0 <= k < |Live(xs)| && CString(Live(xs)[k].name) == name {
      var n := SlotOfName(xs, name);
      LiveIndex(xs, n);
    }
  }

  lemma {:induction false} SlotOfLive(xs: seq<Entry>, k: int) returns (n: int)
    requires 0 <= k < |Live(xs)|
    ensures 0 <= n < |xs| && IsLive(xs[n]) && xs[n] == Live(xs)[k] && |Live(xs[..n])| == k
  {
    var last := |xs| - 1;
    if k < |Live(xs[..last])| {
      n := SlotOfLive(xs[..last], k);
      assert xs[..last][..n] == xs[..n];
    } else {
      n := last;
    }
  }

  /** `dir_is_empty`: the size says exactly whether only "." and ".." are left. */
  method DirIsEmpty(part: Partition, dir: Dir) returns (empty: bool)
    requires DirOk(part.V(), dir.inode.i)
    ensures empty <==> Names(Slots(part.disk, dir.inode.i)).Keys == {Dot(), DotDot()}
  {
    hide VolumeOk, Slots, BlocksUsed, Live;
    empty := dir.inode.i.size == 2 * ENTRY_SIZE;
    TwoLive(Slots(part.disk, dir.inode.i));
  }

  lemma TwoLive(xs: seq<Entry>)
    requires SlotsOk(xs)
    ensures |Live(xs)| == 2 <==> Names(xs).Keys == {Dot(), DotDot()}
  {
    hide CString, Names, SlotsOk, Live;
    FirstTwo(xs);
    NameOfSlot(xs, 0);
    NameOfSlot(xs, 1);
    FirstTwoCount(xs);
    if |Live(xs)| == 2 {
      forall k | k in Names(xs) ensures k == Dot() || k == DotDot() {
        var m := SlotOfName(xs, k);
        LaterIsThird(xs, m);
      }
    } else {
      var n := SlotOfLive(xs, 2);
      LiveLength(xs[..n]);
      NameOfSlot(xs, n);
      OneSlotPerName(xs, 0, n);
      OneSlotPerName(xs, 1, n);
    }
  }

  lemma FirstTwoCount(xs: seq<Entry>)
    requires |xs| >= 2 && IsLive(xs[0]) && IsLive(xs[1])
    ensures |Live(xs[..2])| == 2 && |Live(xs)| >= 2
  {
    assert xs[..0] == [];
    LiveNext(xs, 0);
    LiveNext(xs, 1);
    LivePrefix(xs, 2);
  }

  /** A live entry behind the first two is a third one. */
  lemma LaterIsThird(xs: seq<Entry>, m: int)
    requires |xs| >= 2 && IsLive(xs[0]) && IsLive(xs[1]) && 0 <= m < |xs| && IsLive(xs[m])
    ensures m >= 2 ==> |Live(xs)| >= 3
  {
    if m >= 2 {
      FirstTwoCount(xs[..m]);
      LiveIndex(xs, m);
    }
  }

  lemma FirstTwo(xs: seq<Entry>)
    requires SlotsOk(xs)
    ensures |xs| == SLOTS && IsLive(xs[0]) && IsLive(xs[1]) && CString(xs[0].name) == Dot()
            && CString(xs[1].name) == DotDot()
  {
  }
}
