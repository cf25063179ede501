/** Directories on the disk (v1-src/fileSystem/direct.c:44-352) within their 12 direct blocks: every
    operation does to the slots what Dir.dfy says of the map. */
module DirStore {
  import opened Common
  import opened Disk
  import opened Inodes
  import opened Volumes
  import opened Directories
  import FileWrites

  /** The slots of a block; a missing block has free ones. */
  function BlockSlots(disk: seq<Sector>, l: int): (r: seq<Entry>)
    requires l < |disk|
    ensures |r| == PER_SECTOR && forall k :: 0 <= k < PER_SECTOR ==> IsEntry(r[k])
  {
    if l <= 0 then seq(PER_SECTOR, k => ZeroEntry()) else SectorSlots(disk[l])
  }

  predicate BlocksExist(disk: seq<Sector>, i: Inode) {
    IsInode(i) && |disk| > 0 && forall b :: 0 <= b < 12 ==> i.sectors[b] < |disk|
  }

  /** All slots of a directory, block after block. */
  function Slots(disk: seq<Sector>, i: Inode): (r: seq<Entry>)
    requires BlocksExist(disk, i)
    ensures |r| == SLOTS
  {
    seq(SLOTS, n requires 0 <= n < SLOTS => BlockSlots(disk, i.sectors[n / PER_SECTOR])[n % PER_SECTOR])
  }

  /** Slot n of a directory in bytes: 21 entries of 24 bytes to a block, in the order of the blocks; the
      slots of a block that is not there are free. */
  lemma SlotLayout(disk: seq<Sector>, i: Inode, n: int)
    requires BlocksExist(disk, i) && 0 <= n < SLOTS
    ensures var e, l, at := Slots(disk, i)[n], i.sectors[n / 21], 24 * (n % 21);
            if l == 0 then e == ZeroEntry()
            else
              && (forall j :: 0 <= j < 16 ==> e.name[j] == disk[l][at + j])
              && e.no == FourBytes(disk[l][at + 16], disk[l][at + 17], disk[l][at + 18], disk[l][at + 19])
              && e.ftype == FourBytes(disk[l][at + 20], disk[l][at + 21], disk[l][at + 22], disk[l][at + 23])
  {
    if i.sectors[n / 21] != 0 {
      EntryLayout(disk[i.sectors[n / 21]], n % 21);
    }
    hide EntryAt;
  }

  lemma SlotAt(disk: seq<Sector>, i: Inode, b: int, k: int)
    requires BlocksExist(disk, i) && 0 <= b < 12 && 0 <= k < PER_SECTOR
    ensures PER_SECTOR * b + k < SLOTS && Slots(disk, i)[PER_SECTOR * b + k] == BlockSlots(disk, i.sectors[b])[k]
  {
    assert (PER_SECTOR * b + k) / PER_SECTOR == b && (PER_SECTOR * b + k) % PER_SECTOR == k;
  }

  /** Direct blocks in the data region, allocated and different. */
  ghost predicate DirBlocksOk(v: Volume, i: Inode) {
    && BlocksExist(v.disk, i) && i.sectors[12] == 0 && i.sectors[0] != 0 && Layout(v)
    && (forall b :: 0 <= b < 12 && i.sectors[b] != 0 ==>
        IsData(v, i.sectors[b]) && v.blockMap[i.sectors[b] - v.sb.dataStartLba])
    && (forall b, c :: 0 <= b < c < 12 && i.sectors[b] != 0 ==> i.sectors[b] != i.sectors[c])
  }

  /** A block other than the first is there for the sake of a live entry. */
  ghost predicate BlocksUsed(disk: seq<Sector>, i: Inode)
    requires BlocksExist(disk, i)
  {
    forall b :: 1 <= b < 12 && i.sectors[b] != 0 ==> HasLive(BlockSlots(disk, i.sectors[b]))
  }

  predicate HasLive(xs: seq<Entry>) { exists k :: 0 <= k < |xs| && IsLive(xs[k]) }

  ghost predicate DirOk(v: Volume, i: Inode) {
    && VolumeOk(v) && DirBlocksOk(v, i) && SlotsOk(Slots(v.disk, i))
    && i.size == ENTRY_SIZE * |Live(Slots(v.disk, i))| && BlocksUsed(v.disk, i)
  }

  // ---------- what a write does to the slots ----------

  /** An entry put into slot k of block b. */
  lemma SlotsAfterPut(disk: seq<Sector>, i: Inode, b: int, k: int, e: Entry)
    requires BlocksExist(disk, i) && 0 <= b < 12 && 0 <= k < PER_SECTOR && i.sectors[b] != 0 && IsEntry(e)
    requires forall c :: 0 <= c < 12 && c != b ==> i.sectors[c] != i.sectors[b]
    ensures var d := disk[i.sectors[b] := Patched(disk[i.sectors[b]], ENTRY_SIZE * k, EncodeEntry(e))];
            BlocksExist(d, i) && Slots(d, i) == Slots(disk, i)[PER_SECTOR * b + k := e]
            && forall c :: 0 <= c < 12 ==> BlockSlots(d, i.sectors[c]) == if c == b
                then BlockSlots(disk, i.sectors[b])[k := e] else BlockSlots(disk, i.sectors[c])
  {
    hide EncodeEntry, SectorSlots;
    PutEntry(disk[i.sectors[b]], k, e);
    var d := disk[i.sectors[b] := Patched(disk[i.sectors[b]], ENTRY_SIZE * k, EncodeEntry(e))];
    forall n | 0 <= n < SLOTS ensures Slots(d, i)[n] == Slots(disk, i)[PER_SECTOR * b + k := e][n] {
      BlockOfSlot(n, b, k);
    }
  }

  lemma BlockOfSlot(n: int, b: int, k: int)
    requires 0 <= n && 0 <= k < PER_SECTOR
    ensures n == PER_SECTOR * b + k <==> n / PER_SECTOR == b && n % PER_SECTOR == k
  {
  }

  /** A new block for place b, with the entry in its first slot. */
  lemma SlotsAfterNewBlock(disk: seq<Sector>, i: Inode, b: int, lba: Word, e: Entry)
    requires BlocksExist(disk, i) && 0 <= b < 12 && i.sectors[b] == 0 && 0 < lba < |disk| && IsEntry(e)
    requires forall c :: 0 <= c < 12 ==> i.sectors[c] != lba
    ensures var d, i' := disk[lba := Patched(Zeros(SECTOR_SIZE), 0, EncodeEntry(e))],
            i.(sectors := i.sectors[b := lba]);
            BlocksExist(d, i') && Slots(d, i') == Slots(disk, i)[PER_SECTOR * b := e]
            && forall c :: 0 <= c < 12 ==> BlockSlots(d, i'.sectors[c]) == if c == b then BlockSlots(disk, 0)[0 := e]
                else BlockSlots(disk, i.sectors[c])
  {
    hide EncodeEntry, SectorSlots;
    ZeroSlots();
    PutEntry(Zeros(SECTOR_SIZE), 0, e);
    var d, i' := disk[lba := Patched(Zeros(SECTOR_SIZE), 0, EncodeEntry(e))], i.(sectors := i.sectors[b := lba]);
    forall n | 0 <= n < SLOTS ensures Slots(d, i')[n] == Slots(disk, i)[PER_SECTOR * b := e][n] {
      BlockOfSlot(n, b, 0);
    }
  }

  /** A block whose only live entry is in slot k is taken away. */
  lemma SlotsAfterFreeing(disk: seq<Sector>, i: Inode, b: int, k: int)
    requires BlocksExist(disk, i) && 0 <= b < 12 && 0 <= k < PER_SECTOR
    requires forall j :: 0 <= j < PER_SECTOR && j != k ==> BlockSlots(disk, i.sectors[b])[j] == ZeroEntry()
    ensures var i' := i.(sectors := i.sectors[b := 0]);
            BlocksExist(disk, i') && Slots(disk, i') == Slots(disk, i)[PER_SECTOR * b + k := ZeroEntry()]
  {
    hide SectorSlots;
    var i' := i.(sectors := i.sectors[b := 0]);
    forall n | 0 <= n < SLOTS ensures Slots(disk, i')[n] == Slots(disk, i)[PER_SECTOR * b + k := ZeroEntry()][n] {
      BlockOfSlot(n, b, k);
    }
  }

  // ---------- search_dir_entry ----------

  /** The block numbers of a directory without an indirect table, padded as in the source. */
  function PaddedBlocks(i: Inode): (r: seq<Word>)
    requires IsInode(i)
    ensures |r| == 140
  {
    i.sectors[..12] + seq(128, k => 0)
  }

  /** `search_dir_entry`: the entry of a name, if the directory has it. */
  method SearchDirEntry(part: Partition, i: Inode, name: seq<Byte>) returns (found: bool, dirE: Entry)
    requires DirOk(part.V(), i) && name != []
    ensures found <==> name in Names(Slots(part.disk, i))
    ensures found ==>
            && CString(dirE.name) == name && Names(Slots(part.disk, i))[name] == (dirE.no, dirE.ftype)
            && IsLive(dirE)
  {
    hide VolumeOk, SlotsOk, Names, SectorSlots, EntryAt, CString, Live, BlocksUsed;
    ghost var xs := Slots(part.disk, i);
    var allBlocks := PaddedBlocks(i);
    var blockIdx := 0;
    dirE := ZeroEntry();
    while blockIdx < 140
      invariant 0 <= blockIdx <= 140
      invariant forall m :: 0 <= m < SLOTS && m < PER_SECTOR * blockIdx ==> CString(xs[m].name) != name
    {
      if allBlocks[blockIdx] == 0 {
        if blockIdx < 12 { NamelessBlock(part.disk, i, blockIdx, name); }
        blockIdx := blockIdx + 1;
        continue;
      }
      var buf := part.disk[allBlocks[blockIdx]];
      var dirEntryIdx := 0;
      while dirEntryIdx < PER_SECTOR
        invariant 0 <= dirEntryIdx <= PER_SECTOR
        invariant forall m :: 0 <= m < PER_SECTOR * blockIdx + dirEntryIdx ==> CString(xs[m].name) != name
      {
        SlotIsEntry(part.disk, i, blockIdx, dirEntryIdx);
        var pDe := EntryAt(buf, dirEntryIdx);
        if CString(pDe.name) == name {
          SearchIsLookup(xs, name, PER_SECTOR * blockIdx + dirEntryIdx);
          return true, pDe;
        }
        dirEntryIdx := dirEntryIdx + 1;
      }
      blockIdx := blockIdx + 1;
    }
    SearchIsLookup(xs, name, 0);
    found := false;
  }

  lemma MissingBlock(disk: seq<Sector>, i: Inode, b: int)
    requires BlocksExist(disk, i) && 0 <= b < 12 && i.sectors[b] == 0
    ensures forall m :: PER_SECTOR * b <= m < PER_SECTOR * b + PER_SECTOR ==> Slots(disk, i)[m] == ZeroEntry()
  {
    forall m | PER_SECTOR * b <= m < PER_SECTOR * b + PER_SECTOR ensures Slots(disk, i)[m] == ZeroEntry() {
      BlockOfSlot(m, b, m - PER_SECTOR * b);
    }
  }

  lemma NamelessBlock(disk: seq<Sector>, i: Inode, b: int, name: seq<Byte>)
    requires BlocksExist(disk, i) && 0 <= b < 12 && i.sectors[b] == 0 && name != []
    ensures forall m :: PER_SECTOR * b <= m < PER_SECTOR * b + PER_SECTOR ==> CString(Slots(disk, i)[m].name) != name
  {
    hide SectorSlots;
    ZeroSlots();
    MissingBlock(disk, i, b);
  }

  lemma SlotIsEntry(disk: seq<Sector>, i: Inode, b: int, k: int)
    requires BlocksExist(disk, i) && 0 <= b < 12 && 0 <= k < PER_SECTOR && i.sectors[b] != 0
    ensures PER_SECTOR * b + k < SLOTS && Slots(disk, i)[PER_SECTOR * b + k] == EntryAt(disk[i.sectors[b]], k)
  {
    SlotAt(disk, i, b, k);
  }

  // ---------- sync_dir_entry ----------

  /** Block l was free, and its bit is the one that has come. */
  ghost predicate NewBlock(v: Volume, l: int, blockMap: seq<bool>)
    requires Layout(v)
  {
    IsData(v, l) && !v.blockMap[l - v.sb.dataStartLba] && blockMap == v.blockMap[l - v.sb.dataStartLba := true]
  }

  /** What an insertion at slot n does to the volume and the directory's inode. */
  ghost predicate Inserted(v: Volume, i: Inode, v': Volume, i': Inode, n: int, e: Entry)
    requires BlocksExist(v.disk, i) && BlocksExist(v'.disk, i') && 0 <= n < SLOTS && Layout(v)
  {
    var b := n / PER_SECTOR;
    && IsFirstFree(Slots(v.disk, i), n) && Slots(v'.disk, i') == Slots(v.disk, i)[n := e]
    && i' == i.(size := i'.size, sectors := i'.sectors) && i'.size == i.size + ENTRY_SIZE
    && v' == v.(disk := v'.disk, blockMap := v'.blockMap) && |v'.disk| == |v.disk|
    && (i.sectors[b] != 0 ==> i'.sectors == i.sectors && v'.blockMap == v.blockMap)
    && (i.sectors[b] == 0 ==> NewBlock(v, i'.sectors[b], v'.blockMap) && i'.sectors == i.sectors[b := i'.sectors[b]])
    && forall l :: 0 <= l < |v.disk| && (InTable(v, l) || (IsData(v, l) && l != i'.sectors[b])) ==>
        v'.disk[l] == v.disk[l]
  }

  lemma SizeFits(v: Volume, i: Inode)
    requires DirOk(v, i)
    ensures i.size % ENTRY_SIZE == 0 && i.size <= ENTRY_SIZE * SLOTS
  {
    hide VolumeOk, SlotsOk, Live, BlocksUsed;
    LiveLength(Slots(v.disk, i));
  }

  /** The volume after a sector of the directory was written. */
  function SectorPut(v: Volume, l: Word, s: Sector): (r: Volume)
    requires l < |v.disk|
  {
    v.(disk := v.disk[l := s])
  }

  lemma PutKeepsVolume(v: Volume, i: Inode, b: int, s: Sector)
    requires VolumeOk(v) && DirBlocksOk(v, i) && 0 <= b < 12 && i.sectors[b] != 0 && i.sectors[b] < |v.disk|
    ensures var v' := SectorPut(v, i.sectors[b], s); VolumeOk(v') && DirBlocksOk(v', i)
  {
    hide HoldsBitmap, SlotsOk;
    WriteKeepsBitmaps(v, SectorPut(v, i.sectors[b], s));
  }

  /** Into a free slot of a block that is there. */
  lemma PutKeepsDir(v: Volume, i: Inode, b: int, k: int, e: Entry)
    requires DirOk(v, i) && 0 <= b < 12 && 0 <= k < PER_SECTOR && i.sectors[b] != 0
    requires IsFirstFree(Slots(v.disk, i), PER_SECTOR * b + k) && IsNewEntry(Slots(v.disk, i), e)
    ensures i.sectors[b] < |v.disk| && IsEntry(e) && i.size + ENTRY_SIZE < 0x1_0000_0000
    ensures var s := Patched(v.disk[i.sectors[b]], ENTRY_SIZE * k, EncodeEntry(e));
            var v', i' := SectorPut(v, i.sectors[b], s), i.(size := i.size + ENTRY_SIZE);
            DirOk(v', i') && Inserted(v, i, v', i', PER_SECTOR * b + k, e)
  {
    hide VolumeOk, SlotsOk, Names, SectorSlots, EncodeEntry, Live, IsNewEntry, IsFirstFree, Slots, BlockSlots, Patched;
    NewEntryIsEntry(Slots(v.disk, i), e);
    SizeFits(v, i);
    var s := Patched(v.disk[i.sectors[b]], ENTRY_SIZE * k, EncodeEntry(e));
    var v', i' := SectorPut(v, i.sectors[b], s), i.(size := i.size + ENTRY_SIZE);
    SlotsAfterPut(v.disk, i, b, k, e);
    PutKeepsVolume(v, i, b, s);
    SlotsIgnoreSize(v'.disk, i, i');
    InsertInMap(Slots(v.disk, i), PER_SECTOR * b + k, e);
    BlockOfSlot(PER_SECTOR * b + k, b, k);
    PutKeepsUsed(v.disk, v'.disk, i, i', b, k, e);
    hide BlocksUsed, Layout;
  }

  lemma NewEntryIsEntry(xs: seq<Entry>, e: Entry)
    requires IsNewEntry(xs, e)
    ensures IsEntry(e) && IsLive(e)
  {
  }

  lemma SlotsIgnoreSize(disk: seq<Sector>, i: Inode, i': Inode)
    requires BlocksExist(disk, i) && i' == i.(size := i'.size)
    ensures BlocksExist(disk, i') && Slots(disk, i') == Slots(disk, i)
  {
    hide BlockSlots;
  }

  lemma PutKeepsUsed(disk: seq<Sector>, d: seq<Sector>, i: Inode, i': Inode, b: int, k: int, e: Entry)
    requires BlocksExist(disk, i) && BlocksExist(d, i') && 0 <= b < 12 && 0 <= k < PER_SECTOR && IsLive(e)
             && BlocksUsed(disk, i)
    requires forall c :: 0 <= c < 12 && c != b ==>
             i'.sectors[c] == i.sectors[c] && BlockSlots(d, i'.sectors[c]) == BlockSlots(disk, i.sectors[c])
    requires BlockSlots(d, i'.sectors[b])[k] == e
    ensures BlocksUsed(d, i')
  {
    hide BlockSlots;
    assert HasLive(BlockSlots(d, i'.sectors[b]));
  }

  /** Into the first slot of a new block. */
  lemma NewBlockKeepsDir(v: Volume, i: Inode, b: int, lba: Word, e: Entry)
    requires DirOk(v, i) && 0 <= b < 12 && i.sectors[b] == 0 && IsData(v, lba) && lba - v.sb.dataStartLba < |v.blockMap|
             && !v.blockMap[lba - v.sb.dataStartLba]
    requires IsFirstFree(Slots(v.disk, i), PER_SECTOR * b) && IsNewEntry(Slots(v.disk, i), e)
    ensures IsEntry(e) && i.size + ENTRY_SIZE < 0x1_0000_0000 && Layout(v) && lba < |v.disk|
    ensures var u := BlockBitWritten(v, lba - v.sb.dataStartLba, true);
            var v', i' := u.(disk := u.disk[lba := Patched(Zeros(SECTOR_SIZE), 0, EncodeEntry(e))]),
                i.(size := i.size + ENTRY_SIZE, sectors := i.sectors[b := lba]);
            DirOk(v', i') && Inserted(v, i, v', i', PER_SECTOR * b, e)
  {
    hide VolumeOk, SlotsOk, Names, SectorSlots, EncodeEntry, Live, IsNewEntry, IsFirstFree, Slots, BlockSlots;
    hide BitmapSynced;
    NewEntryIsEntry(Slots(v.disk, i), e);
    SizeFits(v, i);
    BlockBitKeeps(v, lba - v.sb.dataStartLba, true);
    var u := BlockBitWritten(v, lba - v.sb.dataStartLba, true);
    var i1 := i.(sectors := i.sectors[b := lba]);
    var v', i' := u.(disk := u.disk[lba := Patched(Zeros(SECTOR_SIZE), 0, EncodeEntry(e))]),
        i.(size := i.size + ENTRY_SIZE, sectors := i.sectors[b := lba]);
    SameSlots(v, u, i);
    SlotsAfterNewBlock(u.disk, i, b, lba, e);
    SlotsIgnoreSize(v'.disk, i1, i');
    InsertInMap(Slots(v.disk, i), PER_SECTOR * b, e);
    WriteKeepsBitmaps(u, v');
    BlockOfSlot(PER_SECTOR * b, b, 0);
    NewBlockDirOk(v, i, v', i', b, lba);
    PutKeepsUsed(u.disk, v'.disk, i, i', b, 0, e);
  }

  lemma NewBlockDirOk(v: Volume, i: Inode, v': Volume, i': Inode, b: int, lba: Word)
    requires DirBlocksOk(v, i) && 0 <= b < 12 && i.sectors[b] == 0 && IsData(v, lba)
             && lba - v.sb.dataStartLba < |v.blockMap| && !v.blockMap[lba - v.sb.dataStartLba]
    requires i'.sectors == i.sectors[b := lba] && v'.sb == v.sb
             && v'.blockMap == v.blockMap[lba - v.sb.dataStartLba := true] && |v'.disk| == |v.disk| && Layout(v')
    ensures DirBlocksOk(v', i')
  {
    hide Layout;
    DataBounds(v);
    forall c | 0 <= c < 12 ensures i.sectors[c] != lba {}
    forall c, e | 0 <= c < e < 12 && i'.sectors[c] != 0 ensures i'.sectors[c] != i'.sectors[e] {
      assert i'.sectors[c] == (if c == b then lba else i.sectors[c])
          && i'.sectors[e] == (if e == b then lba else i.sectors[e]);
    }
    forall c | 0 <= c < 12 && i'.sectors[c] != 0
      ensures IsData(v', i'.sectors[c]) && v'.blockMap[i'.sectors[c] - v'.sb.dataStartLba]
    {
      assert c == b || i'.sectors[c] == i.sectors[c];
    }
  }

  lemma DataBounds(v: Volume)
    requires Layout(v)
    ensures 0 < v.sb.dataStartLba && v.sb.dataStartLba + v.sb.dataSects <= |v.disk| && v.sb.dataSects <= |v.blockMap|
  {
  }

  /** The slots do not depend on anything but the directory's blocks. */
  lemma SameSlots(v: Volume, u: Volume, i: Inode)
    requires DirBlocksOk(v, i) && |u.disk| == |v.disk|
             && forall l :: 0 <= l < |v.disk| && IsData(v, l) ==> u.disk[l] == v.disk[l]
    ensures BlocksExist(u.disk, i) && Slots(u.disk, i) == Slots(v.disk, i)
    ensures forall b :: 0 <= b < 12 ==> BlockSlots(u.disk, i.sectors[b]) == BlockSlots(v.disk, i.sectors[b])
  {
    hide SectorSlots, Layout;
    forall b | 0 <= b < 12 ensures BlockSlots(u.disk, i.sectors[b]) == BlockSlots(v.disk, i.sectors[b]) {
      if i.sectors[b] != 0 { assert IsData(v, i.sectors[b]); }
    }
    hide BlockSlots;
  }

  lemma {:induction false} AllLive(xs: seq<Entry>)
    requires forall n :: 0 <= n < |xs| ==> IsLive(xs[n])
    ensures |Live(xs)| == |xs|
  {
    if xs != [] { AllLive(xs[..|xs| - 1]); }
  }

  /** While there is room, the scan for a free slot ends within the direct blocks. */
  lemma RoomLeft(xs: seq<Entry>, blockIdx: int)
    requires |xs| == SLOTS && |Live(xs)| < SLOTS && 0 <= blockIdx <= 12
             && forall m :: 0 <= m < PER_SECTOR * blockIdx ==> IsLive(xs[m])
    ensures blockIdx < 12
  {
    if blockIdx == 12 { AllLive(xs); }
  }

  /** A new block for place b of the directory, with the entry in it. */
  method AddDirBlock(part: Partition, node: MemInode, b: int, e: Entry)
    requires DirOk(part.V(), node.i) && 0 <= b < 12 && node.i.sectors[b] == 0
             && FileWrites.CountClear(part.blockMap) > 0
    requires IsFirstFree(Slots(part.disk, node.i), PER_SECTOR * b) && IsNewEntry(Slots(part.disk, node.i), e)
    modifies part`disk, part`blockMap, node
    ensures DirOk(part.V(), node.i) && Inserted(old(part.V()), old(node.i), part.V(), node.i, PER_SECTOR * b, e)
  {
    hide VolumeOk, SlotsOk, Names, SectorSlots, EncodeEntry, Live, IsNewEntry, IsFirstFree, Slots, BlockSlots;
    hide BitmapSynced, BlocksUsed, Inserted;
    ghost var v, i := part.V(), node.i;
    FileWrites.SomeClear(part.blockMap);
    var blockLba := part.BlockBitmapAlloc();
    FileWrites.LbaIsWord(v, blockLba);
    NewBlockKeepsDir(v, i, b, blockLba, e);
    var blockBitmapIdx := blockLba - part.sb.dataStartLba;
    assert blockBitmapIdx != -1;
    part.SyncBlockBit(blockBitmapIdx);
    node.i := node.i.(sectors := node.i.sectors[b := blockLba]);
    var ioBuf: Sector := Patched(Zeros(SECTOR_SIZE), 0, EncodeEntry(e));
    part.disk := part.disk[blockLba := ioBuf];
    node.i := node.i.(size := node.i.size + ENTRY_SIZE);
  }

  /** `sync_dir_entry` while a slot of the 12 direct blocks is free: the entry goes to the first free
      slot, in a new block where there is none, and the map gets exactly this name. */
  method SyncDirEntry(part: Partition, node: MemInode, e: Entry) returns (ok: bool, ghost n: int)
    requires DirOk(part.V(), node.i) && IsNewEntry(Slots(part.disk, node.i), e)
    requires node.i.size < ENTRY_SIZE * SLOTS && FileWrites.CountClear(part.blockMap) > 0
    modifies part`disk, part`blockMap, node
    ensures ok && 0 <= n < SLOTS && DirOk(part.V(), node.i)
            && Inserted(old(part.V()), old(node.i), part.V(), node.i, n, e)
    ensures Names(Slots(part.disk, node.i)) == old(Names(Slots(part.disk, node.i)))[CString(e.name) := (e.no, e.ftype)]
    ensures old(part.NodesOk()) ==> part.Valid()
  {
    hide VolumeOk, SlotsOk, Names, SectorSlots, EntryAt, EncodeEntry, Live, IsNewEntry, Slots, BlockSlots, BlocksUsed;
    hide Inserted, CString;
    ghost var v, i, xs := part.V(), node.i, Slots(part.disk, node.i);
    SizeFits(v, i);
    assert node.i.size % ENTRY_SIZE == 0;
    NewEntryIsEntry(xs, e);
    var allBlocks := PaddedBlocks(node.i);
    var blockIdx := 0;
    RoomLeft(xs, 0);
    while blockIdx < 140
      invariant 0 <= blockIdx < 12 && part.V() == v && node.i == i
      invariant forall m :: 0 <= m < PER_SECTOR * blockIdx ==> IsLive(xs[m])
      decreases 12 - blockIdx
    {
      if allBlocks[blockIdx] == 0 {
        MissingBlock(part.disk, i, blockIdx);
        n := PER_SECTOR * blockIdx;
        InsertInMap(xs, n, e);
        AddDirBlock(part, node, blockIdx, e);
        InsertedSlots(v, i, part.V(), node.i, n, e);
        if old(part.NodesOk()) {
          part.NodeChanged(node);
        }
        return true, n;
      }
      var ioBuf: Sector := part.disk[allBlocks[blockIdx]];
      var dirEntryIdx := 0;
      while dirEntryIdx < PER_SECTOR
        invariant 0 <= dirEntryIdx <= PER_SECTOR && part.V() == v && node.i == i
        invariant forall m :: 0 <= m < PER_SECTOR * blockIdx + dirEntryIdx ==> IsLive(xs[m])
      {
        SlotIsEntry(part.disk, i, blockIdx, dirEntryIdx);
        if EntryAt(ioBuf, dirEntryIdx).ftype == 0 {
          n := PER_SECTOR * blockIdx + dirEntryIdx;
          InsertInMap(xs, n, e);
          PutKeepsDir(v, i, blockIdx, dirEntryIdx, e);
          ioBuf := Patched(ioBuf, ENTRY_SIZE * dirEntryIdx, EncodeEntry(e));
          part.disk := part.disk[allBlocks[blockIdx] := ioBuf];
          node.i := node.i.(size := node.i.size + ENTRY_SIZE);
          InsertedSlots(v, i, part.V(), node.i, n, e);
          if old(part.NodesOk()) {
            part.NodeChanged(node);
          }
          return true, n;
        }
        dirEntryIdx := dirEntryIdx + 1;
      }
      RoomLeft(xs, blockIdx + 1);
      blockIdx := blockIdx + 1;
    }
    ok := false;
  }

  lemma InsertedSlots(v: Volume, i: Inode, v': Volume, i': Inode, n: int, e: Entry)
    requires BlocksExist(v.disk, i) && BlocksExist(v'.disk, i') && 0 <= n < SLOTS && Layout(v)
             && Inserted(v, i, v', i', n, e)
    ensures Slots(v'.disk, i') == Slots(v.disk, i)[n := e] && SameIdentity(i, i')
  {
  }
}
