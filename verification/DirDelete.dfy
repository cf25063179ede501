/** `delete_dir_entry` (v1-src/fileSystem/direct.c:200-297) within the direct blocks. */
module DirDelete {
  import opened Common
  import opened Disk
  import opened Inodes
  import opened Volumes
  import opened Directories
  import opened DirStore
  import FileWrites

  /** A live entry other than "." and "..". */
  predicate IsPlain(e: Entry) { IsLive(e) && !IsDots(e) }

  predicate IsTarget(e: Entry, no: Word) { IsPlain(e) && e.no == no }

  function CountPlain(xs: seq<Entry>): nat {
    if xs == [] then 0 else CountPlain(xs[..|xs| - 1]) + if IsPlain(xs[|xs| - 1]) then 1 else 0
  }

  lemma {:induction false} CountIsZero(xs: seq<Entry>)
    ensures CountPlain(xs) == 0 <==> forall j :: 0 <= j < |xs| ==> !IsPlain(xs[j])
  {
    hide IsPlain;
    if xs != [] {
      var ys := xs[..|xs| - 1];
      CountIsZero(ys);
      forall j | 0 <= j < |ys| ensures ys[j] == xs[j] {}
    }
  }

  /** With k plain, the count says whether it is the only one. */
  lemma {:induction false} CountIsOne(xs: seq<Entry>, k: int)
    requires 0 <= k < |xs| && IsPlain(xs[k])
    ensures CountPlain(xs) >= 1
    ensures CountPlain(xs) == 1 <==> forall j :: 0 <= j < |xs| && j != k ==> !IsPlain(xs[j])
  {
    hide IsPlain;
    var last := |xs| - 1;
    var ys := xs[..last];
    forall j | 0 <= j < |ys| ensures ys[j] == xs[j] {}
    if k == last {
      CountIsZero(ys);
    } else {
      CountIsOne(ys, k);
    }
  }

  ghost predicate AtMostOneTarget(xs: seq<Entry>, no: Word) {
    forall n, m :: 0 <= n < m < |xs| ==> !(IsTarget(xs[n], no) && IsTarget(xs[m], no))
  }

  /** What the inner loop knows of a sector when it has found a plain entry in slot k: whether one of
      its entries is ".", and how many are plain. */
  ghost predicate Counted(ioBuf: Sector, k: int, isFirstBlock: bool, cnt: nat) {
    && 0 <= k < PER_SECTOR && IsPlain(SectorSlots(ioBuf)[k]) && cnt == CountPlain(SectorSlots(ioBuf))
    && (isFirstBlock <==> exists j ::
          && 0 <= j < PER_SECTOR && IsLive(SectorSlots(ioBuf)[j])
          && CString(SectorSlots(ioBuf)[j].name) == Dot())
  }

  /** The inner loop: whether the block has ".", how many plain entries, and where the target is. */
  method ScanBlock(ioBuf: Sector, no: Word) returns (isFirstBlock: bool, cnt: nat, found: int)
    requires AtMostOneTarget(SectorSlots(ioBuf), no)
    ensures isFirstBlock <==> exists k ::
            && 0 <= k < PER_SECTOR && IsLive(SectorSlots(ioBuf)[k])
            && CString(SectorSlots(ioBuf)[k].name) == Dot()
    ensures cnt == CountPlain(SectorSlots(ioBuf)) && -1 <= found < PER_SECTOR
    ensures if found >= 0 then IsTarget(SectorSlots(ioBuf)[found], no)
            else forall k :: 0 <= k < PER_SECTOR ==> !IsTarget(SectorSlots(ioBuf)[k], no)
  {
    hide EntryAt, CString, SectorSlots;
    ghost var xs := SectorSlots(ioBuf);
    isFirstBlock, cnt, found := false, 0, -1;
    var dirEntryIdx := 0;
    while dirEntryIdx < PER_SECTOR
      invariant 0 <= dirEntryIdx <= PER_SECTOR && -1 <= found < dirEntryIdx
      invariant isFirstBlock <==> exists k :: 0 <= k < dirEntryIdx && IsLive(xs[k]) && CString(xs[k].name) == Dot()
      invariant cnt == CountPlain(xs[..dirEntryIdx])
      invariant if found >= 0 then IsTarget(xs[found], no)
                else forall k :: 0 <= k < dirEntryIdx ==> !IsTarget(xs[k], no)
    {
      SlotOfSector(ioBuf, dirEntryIdx);
      var e := EntryAt(ioBuf, dirEntryIdx);
      assert xs[..dirEntryIdx + 1][..dirEntryIdx] == xs[..dirEntryIdx];
      if e.ftype != 0 {
        if CString(e.name) == Dot() {
          isFirstBlock := true;
        } else if CString(e.name) != Dot() && CString(e.name) != DotDot() {
          cnt := cnt + 1;
          if e.no == no {
            assert found == -1;
            found := dirEntryIdx;
          }
        }
      }
      dirEntryIdx := dirEntryIdx + 1;
    }
    assert xs[..PER_SECTOR] == xs;
  }

  lemma SlotOfSector(s: Sector, k: int)
    requires 0 <= k < PER_SECTOR
    ensures SectorSlots(s)[k] == EntryAt(s, k)
  {
  }

  // ---------- what happens to the directory ----------

  /** The effect of deleting the entry in slot n on the volume and the directory's inode, before
      inode_sync: a block that was there for this entry only goes back to the bitmap. */
  ghost predicate Removed(v: Volume, i: Inode, u: Volume, i': Inode, n: int)
    requires BlocksExist(v.disk, i) && BlocksExist(u.disk, i') && 0 <= n < SLOTS && Layout(v)
  {
    var b := n / PER_SECTOR;
    && Slots(u.disk, i') == Slots(v.disk, i)[n := ZeroEntry()] && |u.disk| == |v.disk|
    && i' == i.(size := i'.size, sectors := i'.sectors) && i'.size == i.size - ENTRY_SIZE
    && u == v.(disk := u.disk, blockMap := u.blockMap)
    && (i'.sectors[b] != 0 ==> i'.sectors == i.sectors && u.blockMap == v.blockMap)
    && (i'.sectors[b] == 0 ==>
        && i.sectors[b] != 0 && i'.sectors == i.sectors[b := 0] && IsData(v, i.sectors[b])
        && u.blockMap == v.blockMap[i.sectors[b] - v.sb.dataStartLba := false])
    && forall l :: 0 <= l < |v.disk| && IsData(v, l) && l != i.sectors[b] ==> u.disk[l] == v.disk[l]
  }

  lemma LiveSlotCounts(xs: seq<Entry>, n: int)
    requires SlotsOk(xs) && 0 <= n < SLOTS && IsPlain(xs[n])
    ensures |Live(xs)| > 0
  {
    hide CString;
    DeleteFromMap(xs, n);
  }

  /** The entry is zeroed in its block. */
  lemma ZeroingKeepsDir(v: Volume, i: Inode, b: int, k: int)
    requires DirOk(v, i) && 0 <= b < 12 && 0 <= k < PER_SECTOR && i.sectors[b] != 0 && i.sectors[b] < |v.disk|
    requires IsPlain(SectorSlots(v.disk[i.sectors[b]])[k])
             && (b == 0 || CountPlain(SectorSlots(v.disk[i.sectors[b]])) != 1)
    ensures PER_SECTOR * b + k < SLOTS && i.size >= ENTRY_SIZE && IsPlain(Slots(v.disk, i)[PER_SECTOR * b + k])
    ensures var u, i' := v.(disk := v.disk[i.sectors[b] := Patched(v.disk[i.sectors[b]], ENTRY_SIZE * k,
            Zeros(ENTRY_SIZE))]), i.(size := i.size - ENTRY_SIZE);
            DirOk(u, i') && Removed(v, i, u, i', PER_SECTOR * b + k)
  {
    hide VolumeOk, SlotsOk, Names, SectorSlots, EncodeEntry, Live, Slots, BlockSlots, IsPlain;
    var n := PER_SECTOR * b + k;
    ZeroSlots();
    SlotAt(v.disk, i, b, k);
    BlockIs(v.disk, i, b);
    LiveSlotCounts(Slots(v.disk, i), n);
    PlainIs(Slots(v.disk, i)[n]);
    var u, i' := v.(disk := v.disk[i.sectors[b] := Patched(v.disk[i.sectors[b]], ENTRY_SIZE * k, Zeros(ENTRY_SIZE))]),
        i.(size := i.size - ENTRY_SIZE);
    SlotsAfterPut(v.disk, i, b, k, ZeroEntry());
    SlotsIgnoreSize(u.disk, i, i');
    DeleteFromMap(Slots(v.disk, i), n);
    WriteKeepsBitmaps(v, u);
    BlockOfSlot(n, b, k);
    ZeroingKeepsUsed(v.disk, u.disk, i, i', b, k);
  }

  lemma PlainIs(e: Entry)
    ensures IsPlain(e) ==> IsLive(e) && !IsDots(e)
  {
  }

  lemma BlockIs(disk: seq<Sector>, i: Inode, b: int)
    requires BlocksExist(disk, i) && 0 <= b < 12 && i.sectors[b] != 0
    ensures BlockSlots(disk, i.sectors[b]) == SectorSlots(disk[i.sectors[b]])
  {
  }

  lemma ZeroingKeepsUsed(disk: seq<Sector>, d: seq<Sector>, i: Inode, i': Inode, b: int, k: int)
    requires BlocksExist(disk, i) && BlocksExist(d, i') && 0 <= b < 12 && 0 <= k < PER_SECTOR && BlocksUsed(disk, i)
    requires IsPlain(BlockSlots(disk, i.sectors[b])[k]) && (b == 0 || CountPlain(BlockSlots(disk, i.sectors[b])) != 1)
    requires forall c :: 0 <= c < 12 ==>
             && i'.sectors[c] == i.sectors[c]
             && BlockSlots(d, i'.sectors[c]) == if c == b then BlockSlots(disk, i.sectors[b])[k := ZeroEntry()]
             else BlockSlots(disk, i.sectors[c])
    ensures BlocksUsed(d, i')
  {
    hide BlockSlots, IsDots;
    var xs := BlockSlots(disk, i.sectors[b]);
    CountIsOne(xs, k);
    if b != 0 {
      var j :| 0 <= j < |xs| && j != k && IsPlain(xs[j]);
      assert IsLive(BlockSlots(d, i'.sectors[b])[j]);
      assert HasLive(BlockSlots(d, i'.sectors[b]));
    }
  }

  /** A block without "." has only plain entries. */
  lemma OnlyPlain(v: Volume, i: Inode, b: int)
    requires DirOk(v, i) && 0 <= b < 12 && i.sectors[b] != 0 && i.sectors[b] < |v.disk|
    requires forall k :: 0 <= k < PER_SECTOR ==>
             !(IsLive(SectorSlots(v.disk[i.sectors[b]])[k])
             && CString(SectorSlots(v.disk[i.sectors[b]])[k].name) == Dot())
    ensures b > 0
    ensures forall k :: 0 <= k < PER_SECTOR ==>
            IsPlain(SectorSlots(v.disk[i.sectors[b]])[k]) || SectorSlots(v.disk[i.sectors[b]])[k] == ZeroEntry()
  {
    hide VolumeOk, SectorSlots, Live, BlocksUsed, CString;
    BlockIs(v.disk, i, b);
    SlotAt(v.disk, i, 0, 0);
    forall k | 0 <= k < PER_SECTOR
      ensures IsPlain(SectorSlots(v.disk[i.sectors[b]])[k]) || SectorSlots(v.disk[i.sectors[b]])[k] == ZeroEntry()
    {
      SlotAt(v.disk, i, b, k);
    }
  }

  /** The block goes back to the bitmap with its only entry. */
  lemma FreeingKeepsDir(v: Volume, i: Inode, b: int, k: int) returns (u: Volume, i': Inode)
    requires DirOk(v, i) && 0 < b < 12 && 0 <= k < PER_SECTOR && i.sectors[b] != 0 && i.sectors[b] < |v.disk|
    requires forall j :: 0 <= j < PER_SECTOR ==>
             IsPlain(SectorSlots(v.disk[i.sectors[b]])[j]) || SectorSlots(v.disk[i.sectors[b]])[j] == ZeroEntry()
    requires IsPlain(SectorSlots(v.disk[i.sectors[b]])[k]) && CountPlain(SectorSlots(v.disk[i.sectors[b]])) == 1
    ensures PER_SECTOR * b + k < SLOTS && i.size >= ENTRY_SIZE && IsPlain(Slots(v.disk, i)[PER_SECTOR * b + k])
    ensures Layout(v) && IsData(v, i.sectors[b]) && i.sectors[b] - v.sb.dataStartLba < |v.blockMap|
    ensures u == BlockBitWritten(v, i.sectors[b] - v.sb.dataStartLba, false)
            && i' == i.(size := i.size - ENTRY_SIZE, sectors := i.sectors[b := 0])
    ensures DirOk(u, i') && Removed(v, i, u, i', PER_SECTOR * b + k)
  {
    hide VolumeOk, SlotsOk, Names, SectorSlots, Live, Slots, BlockSlots, IsPlain, BitmapSynced;
    var n := PER_SECTOR * b + k;
    SlotAt(v.disk, i, b, k);
    BlockIs(v.disk, i, b);
    CountIsOne(SectorSlots(v.disk[i.sectors[b]]), k);
    LiveSlotCounts(Slots(v.disk, i), n);
    PlainIs(Slots(v.disk, i)[n]);
    BlockBitKeeps(v, i.sectors[b] - v.sb.dataStartLba, false);
    u := BlockBitWritten(v, i.sectors[b] - v.sb.dataStartLba, false);
    var i1 := i.(sectors := i.sectors[b := 0]);
    i' := i1.(size := i.size - ENTRY_SIZE);
    SameSlots(v, u, i);
    SlotsAfterFreeing(u.disk, i, b, k);
    SlotsIgnoreSize(u.disk, i1, i');
    DeleteFromMap(Slots(v.disk, i), n);
    BlockOfSlot(n, b, k);
    FreedBlocksOk(v, i, u, i', b);
    hide DirBlocksOk, BlocksUsed, Layout;
  }

  lemma FreedBlocksOk(v: Volume, i: Inode, u: Volume, i': Inode, b: int)
    requires DirBlocksOk(v, i) && BlocksUsed(v.disk, i) && 0 < b < 12 && i.sectors[b] != 0 && Layout(u)
    requires u.sb == v.sb && |u.disk| == |v.disk| && u.blockMap == v.blockMap[i.sectors[b] - v.sb.dataStartLba := false]
    requires i'.sectors == i.sectors[b := 0]
             && forall c :: 0 <= c < 12 ==> BlockSlots(u.disk, i.sectors[c]) == BlockSlots(v.disk, i.sectors[c])
    ensures DirBlocksOk(u, i') && BlocksUsed(u.disk, i')
  {
    hide Layout, BlockSlots;
    DataBounds(v);
    forall c | 0 <= c < 12 ensures i'.sectors[c] == if c == b then 0 else i.sectors[c] {}
    forall c, e | 0 <= c < e < 12 && i'.sectors[c] != 0 ensures i'.sectors[c] != i'.sectors[e] {
      assert i.sectors[c] != i.sectors[e];
    }
  }

  /** inode_sync does not touch the directory's blocks. */
  lemma SyncKeepsDir(u: Volume, i: Inode)
    requires DirOk(u, i)
    ensures TableFits(u.disk, u.sb.inodeTableLba)
    ensures var w := u.(disk := Synced(u.disk, u.sb.inodeTableLba, i));
            DirOk(w, i) && Slots(w.disk, i) == Slots(u.disk, i)
  {
    hide SlotsOk, Live, Slots, BlockSlots, HoldsBitmap, SlotRead, SlotWritten, Encode;
    var w := u.(disk := Synced(u.disk, u.sb.inodeTableLba, i));
    SlotWrittenBytes(u.disk, u.sb.inodeTableLba, i.no % 0x100, Encode(Pure(i)));
    WriteKeepsBitmaps(u, w);
    SameSlots(u, w, i);
  }

  lemma TargetsInBlock(disk: seq<Sector>, i: Inode, b: int, no: Word)
    requires BlocksExist(disk, i) && 0 <= b < 12 && i.sectors[b] != 0 && AtMostOneTarget(Slots(disk, i), no)
    ensures AtMostOneTarget(SectorSlots(disk[i.sectors[b]]), no)
    ensures forall k :: 0 <= k < PER_SECTOR ==>
            SectorSlots(disk[i.sectors[b]])[k] == Slots(disk, i)[PER_SECTOR * b..][k]
  {
    hide IsPlain, SectorSlots, Slots;
    forall k | 0 <= k < PER_SECTOR ensures SectorSlots(disk[i.sectors[b]])[k] == Slots(disk, i)[PER_SECTOR * b + k] {
      SlotAt(disk, i, b, k);
    }
    var ys := Slots(disk, i)[PER_SECTOR * b..];
    forall n, m | 0 <= n < m < PER_SECTOR ensures !(IsTarget(ys[n], no) && IsTarget(ys[m], no)) {
      assert ys[n] == Slots(disk, i)[PER_SECTOR * b + n] && ys[m] == Slots(disk, i)[PER_SECTOR * b + m];
    }
  }

  /** A block without a target, or without sectors, adds nothing. */
  lemma NoTargetInBlock(disk: seq<Sector>, i: Inode, b: int, no: Word)
    requires BlocksExist(disk, i) && 0 <= b < 12
    requires i.sectors[b] != 0 ==> forall k :: 0 <= k < PER_SECTOR ==> !IsTarget(SectorSlots(disk[i.sectors[b]])[k], no)
    ensures forall m :: PER_SECTOR * b <= m < PER_SECTOR * b + PER_SECTOR ==> !IsTarget(Slots(disk, i)[m], no)
  {
    hide SectorSlots, Slots;
    forall m | PER_SECTOR * b <= m < PER_SECTOR * b + PER_SECTOR ensures !IsTarget(Slots(disk, i)[m], no) {
      SlotAt(disk, i, b, m - PER_SECTOR * b);
    }
  }

  /** Slot n of the directory before was the one entry with the number; it is gone, and so is its
      name, on the disk as in memory. */
  ghost predicate Deleted(v: Volume, i: Inode, v': Volume, i': Inode, n: int, no: Word)
    requires BlocksExist(v.disk, i) && BlocksExist(v'.disk, i') && 0 <= n < SLOTS && Layout(v) && i.no < 0x100
    requires SlotsOk(Slots(v.disk, i)) && SlotsOk(Slots(v'.disk, i'))
  {
    && Removed(v, i, v', i', n) && IsTarget(Slots(v.disk, i)[n], no)
    && Names(Slots(v'.disk, i')) == Names(Slots(v.disk, i)) - {CString(Slots(v.disk, i)[n].name)}
    && TableFits(v'.disk, v.sb.inodeTableLba) && Stored(v'.disk, v.sb.inodeTableLba, i.no) == Pure(i')
    && forall m :: 0 <= m < MAX_INODES && m != i.no ==>
        SlotRead(v'.disk, v.sb.inodeTableLba, m) == SlotRead(v.disk, v.sb.inodeTableLba, m)
  }

  lemma DeletedAddsUp(v: Volume, i: Inode, u: Volume, i': Inode, n: int, no: Word)
    requires DirOk(v, i) && DirOk(u, i') && 0 <= n < SLOTS && i.no < 0x100 && Removed(v, i, u, i', n)
             && IsTarget(Slots(v.disk, i)[n], no)
    requires forall l :: 0 <= l < |v.disk| && InTable(v, l) ==> u.disk[l] == v.disk[l]
    ensures TableFits(u.disk, u.sb.inodeTableLba)
    ensures var v' := u.(disk := Synced(u.disk, u.sb.inodeTableLba, i')); DirOk(v', i') && Deleted(v, i, v', i', n, no)
  {
    hide SlotsOk, Names, Live, Slots, BlockSlots, HoldsBitmap, SlotRead, SlotWritten, Encode, Decode, BlocksUsed;
    hide CString;
    SyncKeepsDir(u, i');
    var v' := u.(disk := Synced(u.disk, u.sb.inodeTableLba, i'));
    DeleteFromMap(Slots(v.disk, i), n);
    FileWrites.AppendedSlots(u, u, u.disk, i');
    forall m | 0 <= m < MAX_INODES && m != i.no
      ensures SlotRead(v'.disk, v.sb.inodeTableLba, m) == SlotRead(v.disk, v.sb.inodeTableLba, m)
    {
      SameTableSameSlot(v.disk, u.disk, v.sb.inodeTableLba, m);
    }
    SlotWrittenBytes(u.disk, u.sb.inodeTableLba, i'.no % 0x100, Encode(Pure(i')));
    forall l | 0 <= l < |v.disk| && IsData(v, l) ensures v'.disk[l] == u.disk[l] { DataNotTable(v, l); }
  }

  /** A block of the directory goes back to the bitmap. */
  method FreeDirBlock(part: Partition, node: MemInode, b: int)
    requires IsInode(node.i) && 0 <= b < 12 && Layout(part.V()) && IsData(part.V(), node.i.sectors[b])
    modifies part`disk, part`blockMap, node
    ensures part.V() == BlockBitWritten(old(part.V()), old(node.i).sectors[b] - part.sb.dataStartLba, false)
    ensures node.i == old(node.i).(sectors := old(node.i).sectors[b := 0])
  {
    var blockBitmapIdx := node.i.sectors[b] - part.sb.dataStartLba;
    part.blockMap := part.blockMap[blockBitmapIdx := false];
    part.SyncBlockBit(blockBitmapIdx);
    node.i := node.i.(sectors := node.i.sectors[b := 0]);
  }

  /** The entry's block is freed or the entry zeroed, as the source decides. */
  method RemoveEntry(part: Partition, node: MemInode, b: int, ioBuf: Sector, k: int, isFirstBlock: bool, cnt: nat)
    requires DirOk(part.V(), node.i) && 0 <= b < 12 && 0 <= k < PER_SECTOR && node.i.sectors[b] != 0
             && ioBuf == part.disk[node.i.sectors[b]]
    requires Counted(ioBuf, k, isFirstBlock, cnt)
    modifies part`disk, part`blockMap, node
    ensures DirOk(part.V(), node.i) && PER_SECTOR * b + k < SLOTS
            && Removed(old(part.V()), old(node.i), part.V(), node.i, PER_SECTOR * b + k)
    ensures forall l :: 0 <= l < |part.disk| && InTable(part.V(), l) ==> part.disk[l] == old(part.disk)[l]
  {
    hide VolumeOk, SlotsOk, Names, SectorSlots, Live, Slots, BlockSlots, IsPlain, BitmapSynced, BlocksUsed, CString;
    hide Removed;
    CountIsOne(SectorSlots(ioBuf), k);
    assert cnt >= 1;
    if cnt == 1 && !isFirstBlock {
      FreeWithBlock(part, node, b, k);
    } else {
      FirstBlockIs(part.V(), node.i, b);
      WipeEntry(part, node, b, ioBuf, k);
    }
  }

  /** The entry goes with its block. */
  method FreeWithBlock(part: Partition, node: MemInode, b: int, k: int)
    requires DirOk(part.V(), node.i) && 0 <= b < 12 && 0 <= k < PER_SECTOR && 0 < node.i.sectors[b] < |part.disk|
    requires IsPlain(SectorSlots(part.disk[node.i.sectors[b]])[k])
             && CountPlain(SectorSlots(part.disk[node.i.sectors[b]])) == 1
    requires forall j :: 0 <= j < PER_SECTOR ==>
               !(IsLive(SectorSlots(part.disk[node.i.sectors[b]])[j])
                   && CString(SectorSlots(part.disk[node.i.sectors[b]])[j].name) == Dot())
    modifies part`disk, part`blockMap, node
    ensures DirOk(part.V(), node.i) && PER_SECTOR * b + k < SLOTS
            && Removed(old(part.V()), old(node.i), part.V(), node.i, PER_SECTOR * b + k)
    ensures forall l :: 0 <= l < |part.disk| && InTable(part.V(), l) ==> part.disk[l] == old(part.disk)[l]
  {
    hide VolumeOk, SlotsOk, Names, SectorSlots, Live, Slots, BlockSlots, IsPlain, BitmapSynced, BlocksUsed, CString;
    hide Removed, Layout;
    ghost var v, i := part.V(), node.i;
    OnlyPlain(v, i, b);
    ghost var u, i' := FreeingKeepsDir(v, i, b, k);
    BlockBitKeeps(v, i.sectors[b] - v.sb.dataStartLba, false);
    FreeDirBlock(part, node, b);
    assert node.i.size >= ENTRY_SIZE;
    node.i := node.i.(size := node.i.size - ENTRY_SIZE);
  }

  /** The entry is zeroed in its block. */
  method WipeEntry(part: Partition, node: MemInode, b: int, ioBuf: Sector, k: int)
    requires DirOk(part.V(), node.i) && 0 <= b < 12 && 0 <= k < PER_SECTOR && 0 < node.i.sectors[b] < |part.disk|
    requires ioBuf == part.disk[node.i.sectors[b]] && IsPlain(SectorSlots(ioBuf)[k])
             && (b == 0 || CountPlain(SectorSlots(ioBuf)) != 1)
    modifies part`disk, node
    ensures DirOk(part.V(), node.i) && PER_SECTOR * b + k < SLOTS
            && Removed(old(part.V()), old(node.i), part.V(), node.i, PER_SECTOR * b + k)
    ensures forall l :: 0 <= l < |part.disk| && InTable(part.V(), l) ==> part.disk[l] == old(part.disk)[l]
  {
    hide VolumeOk, SlotsOk, Names, SectorSlots, Live, Slots, BlockSlots, IsPlain, BitmapSynced, BlocksUsed, CString;
    hide Removed, Layout;
    ghost var v, i := part.V(), node.i;
    ZeroingKeepsDir(v, i, b, k);
    part.disk := part.disk[node.i.sectors[b] := Patched(ioBuf, ENTRY_SIZE * k, Zeros(ENTRY_SIZE))];
    DataNotTable(v, i.sectors[b]);
    assert node.i.size >= ENTRY_SIZE;
    node.i := node.i.(size := node.i.size - ENTRY_SIZE);
  }

  lemma DataNotTable(v: Volume, l: int)
    requires Layout(v) && IsData(v, l)
    ensures !InTable(v, l)
  {
  }

  /** Only block 0 has ".". */
  lemma FirstBlockIs(v: Volume, i: Inode, b: int)
    requires DirOk(v, i) && 0 <= b < 12 && i.sectors[b] != 0 && i.sectors[b] < |v.disk|
    ensures (exists k ::
            && 0 <= k < PER_SECTOR && IsLive(SectorSlots(v.disk[i.sectors[b]])[k])
            && CString(SectorSlots(v.disk[i.sectors[b]])[k].name) == Dot()) <==> b == 0
  {
    hide VolumeOk, SectorSlots, Live, BlocksUsed, CString;
    BlockIs(v.disk, i, b);
    SlotAt(v.disk, i, 0, 0);
    var xs := SectorSlots(v.disk[i.sectors[b]]);
    if k :| 0 <= k < PER_SECTOR && IsLive(xs[k]) && CString(xs[k].name) == Dot() {
      SlotAt(v.disk, i, b, k);
      assert PER_SECTOR * b + k == 0;
    }
  }

  /** The entry that was found goes, and the directory's inode is written. */
  method RemoveAndSync(part: Partition, node: MemInode, b: int, ioBuf: Sector, k: int, isFirstBlock: bool, cnt: nat,
                       no: Word)
    requires DirOk(part.V(), node.i) && 0 <= b < 12 && 0 <= k < PER_SECTOR && node.i.sectors[b] != 0
             && ioBuf == part.disk[node.i.sectors[b]] && node.i.no < 0x100
    requires Counted(ioBuf, k, isFirstBlock, cnt)
    requires PER_SECTOR * b + k < SLOTS && IsTarget(Slots(part.disk, node.i)[PER_SECTOR * b + k], no)
    modifies part`disk, part`blockMap, node
    ensures DirOk(part.V(), node.i)
    ensures Deleted(old(part.V()), old(node.i), part.V(), node.i, PER_SECTOR * b + k, no)
    ensures SameIdentity(old(node.i), node.i)
  {
    hide VolumeOk, SlotsOk, Names, SectorSlots, Live, Slots, BlockSlots, IsPlain, BlocksUsed, CString, Deleted, Removed;
    hide Synced, IsTarget;
    ghost var v, i, n := part.V(), node.i, PER_SECTOR * b + k;
    RemoveEntry(part, node, b, ioBuf, k, isFirstBlock, cnt);
    RemovedBasics(v, i, part.V(), node.i, n);
    DeletedAddsUp(v, i, part.V(), node.i, n, no);
    part.InodeSync(node.i, 2 * SECTOR_SIZE);
  }

  /** The outer loop of `delete_dir_entry`: the block with the entry that has the number, where in it
      the entry is, and what its inner loop has counted there; 140 when there is no such entry. */
  method FindTarget(part: Partition, node: MemInode, no: Word)
    returns (blockIdx: int, found: int, isFirstBlock: bool, cnt: nat)
    requires DirOk(part.V(), node.i) && AtMostOneTarget(Slots(part.disk, node.i), no)
    ensures blockIdx == 140 ==> forall m :: 0 <= m < SLOTS ==> !IsTarget(Slots(part.disk, node.i)[m], no)
    ensures blockIdx != 140 ==>
            && 0 <= blockIdx < 12 && 0 < node.i.sectors[blockIdx] < |part.disk| && 0 <= found < PER_SECTOR
            && PER_SECTOR * blockIdx + found < SLOTS
            && IsTarget(Slots(part.disk, node.i)[PER_SECTOR * blockIdx + found], no)
            && Counted(part.disk[node.i.sectors[blockIdx]], found, isFirstBlock, cnt)
  {
    hide VolumeOk, SlotsOk, Names, SectorSlots, Live, Slots, BlockSlots, IsPlain, BlocksUsed, CString;
    hide AtMostOneTarget;
    ghost var v, i, xs := part.V(), node.i, Slots(part.disk, node.i);
    var allBlocks := PaddedBlocks(node.i);
    blockIdx, found, isFirstBlock, cnt := 0, -1, false, 0;
    while blockIdx < 140
      invariant 0 <= blockIdx <= 140
      invariant forall m :: 0 <= m < SLOTS && m < PER_SECTOR * blockIdx ==> !IsTarget(xs[m], no)
    {
      if allBlocks[blockIdx] == 0 {
        if blockIdx < 12 { NoTargetInBlock(v.disk, i, blockIdx, no); }
        blockIdx := blockIdx + 1;
        continue;
      }
      TargetsInBlock(v.disk, i, blockIdx, no);
      var ioBuf: Sector := part.disk[allBlocks[blockIdx]];
      isFirstBlock, cnt, found := ScanBlock(ioBuf, no);
      if found == -1 {
        NoTargetInBlock(v.disk, i, blockIdx, no);
        blockIdx := blockIdx + 1;
        continue;
      }
      SlotAt(v.disk, i, blockIdx, found);
      return;
    }
  }

  /** `delete_dir_entry`: the entry with the number goes, and its name only; nothing happens when no
      entry other than "." and ".." has the number. */
  method DeleteDirEntry(part: Partition, node: MemInode, no: Word) returns (ok: bool, ghost n: int)
    requires DirOk(part.V(), node.i) && AtMostOneTarget(Slots(part.disk, node.i), no) && node.i.no < 0x100
    modifies part`disk, part`blockMap, node
    ensures DirOk(part.V(), node.i)
    ensures ok <==> exists m :: 0 <= m < SLOTS && IsTarget(old(Slots(part.disk, node.i))[m], no)
    ensures !ok ==> part.V() == old(part.V()) && node.i == old(node.i)
    ensures ok ==> 0 <= n < SLOTS && Deleted(old(part.V()), old(node.i), part.V(), node.i, n, no)
    ensures old(part.NodesOk()) ==> part.Valid()
  {
    hide VolumeOk, SlotsOk, Names, SectorSlots, Live, Slots, BlockSlots, IsPlain, BlocksUsed, CString, Deleted, Removed;
    hide AtMostOneTarget, Counted, IsTarget;
    var blockIdx, found, isFirstBlock, cnt := FindTarget(part, node, no);
    ok, n := blockIdx != 140, 0;
    if ok {
      n := PER_SECTOR * blockIdx + found;
      RemoveAndSync(part, node, blockIdx, part.disk[node.i.sectors[blockIdx]], found, isFirstBlock, cnt, no);
    }
    if old(part.NodesOk()) {
      part.NodeChanged(node);
    }
  }

  lemma RemovedBasics(v: Volume, i: Inode, u: Volume, i': Inode, n: int)
    requires BlocksExist(v.disk, i) && BlocksExist(u.disk, i') && 0 <= n < SLOTS && Layout(v) && Removed(v, i, u, i', n)
    ensures u.sb == v.sb && SameIdentity(i, i') && |u.disk| == |v.disk|
  {
  }
}
