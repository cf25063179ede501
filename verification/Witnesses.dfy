/** The preconditions of the file system's theorems can be met: a small volume with a root directory and
    an empty file, and a small directory tree. */
module Witnesses {
  import opened Common
  import opened Disk
  import opened Inodes
  import opened Volumes
  import opened Directories
  import DirDelete
  import DirRead
  import DirStore
  import FileWrites
  import Paths
  import Walks

  const DATA_SECTS := 100

  function Regions(): SuperBlock { SuperBlock(1, 2, 3, 3 + TABLE_SECTORS, DATA_SECTS) }

  /** The root directory has the first block; nothing is free behind the data. */
  function UsedBlocks(): (r: seq<bool>)
    ensures |r| == BITS_PER_SECTOR && forall k :: 0 <= k < |r| ==> r[k] == (k == 0 || k >= DATA_SECTS)
  {
    seq(BITS_PER_SECTOR, k => k == 0 || k >= DATA_SECTS)
  }

  function UsedInodes(): (r: seq<bool>)
    ensures |r| == BITS_PER_SECTOR
  {
    seq(BITS_PER_SECTOR, k => k == 0)
  }

  function DotEntry(): Entry { Entry(Dot() + Zeros(15), 0, FT_DIRECTORY) }

  function DotDotEntry(): Entry { Entry(DotDot() + Zeros(14), 0, FT_DIRECTORY) }

  function RootSector(): Sector {
    Patched(Patched(Zeros(SECTOR_SIZE), 0, EncodeEntry(DotEntry())), ENTRY_SIZE, EncodeEntry(DotDotEntry()))
  }

  function SmallDisk(): (r: seq<Sector>)
    ensures |r| == 3 + TABLE_SECTORS + DATA_SECTS
    ensures r[1] == PackSector(UsedBlocks()) && r[2] == PackSector(UsedInodes()) && r[3 + TABLE_SECTORS] == RootSector()
  {
    seq(3 + TABLE_SECTORS + DATA_SECTS, l => SmallSector(l))
  }

  function SmallSector(l: int): Sector {
    if l == 1 then PackSector(UsedBlocks())
    else if l == 2 then PackSector(UsedInodes())
    else if l == 3 + TABLE_SECTORS then RootSector()
    else Zeros(SECTOR_SIZE)
  }

  function SmallVolume(): Volume { Volume(Regions(), SmallDisk(), UsedBlocks(), UsedInodes()) }

  lemma SmallVolumeIsOk()
    ensures VolumeOk(SmallVolume())
  {
    hide PackSector, SmallSector, RootSector;
    assert UsedBlocks()[BITS_PER_SECTOR * 0..BITS_PER_SECTOR * 0 + BITS_PER_SECTOR] == UsedBlocks();
    assert UsedInodes()[BITS_PER_SECTOR * 0..BITS_PER_SECTOR * 0 + BITS_PER_SECTOR] == UsedInodes();
  }

  function RootInode(): Inode { Inode(0, 2 * ENTRY_SIZE, 1, false, [3 + TABLE_SECTORS] + seq(12, k => 0)) }

  function EmptyFile(): Inode { Inode(1, 0, 1, false, seq(13, k => 0)) }

  lemma EmptyFileIsAppendable()
    ensures FileWrites.Appendable(SmallVolume(), EmptyFile())
  {
    hide HoldsBitmap, SmallDisk;
    SmallVolumeIsOk();
  }

  /** The slots of the root directory. */
  lemma RootSectorSlots()
    ensures SectorSlots(RootSector()) == seq(PER_SECTOR, k => ZeroEntry())[0 := DotEntry()][1 := DotDotEntry()]
  {
    ZeroSlots();
    PutEntry(Zeros(SECTOR_SIZE), 0, DotEntry());
    PutEntry(Patched(Zeros(SECTOR_SIZE), ENTRY_SIZE * 0, EncodeEntry(DotEntry())), 1, DotDotEntry());
  }

  lemma {:induction false} NameThenZeros(name: seq<Byte>, n: nat)
    requires n > 0 && forall k :: 0 <= k < |name| ==> name[k] != 0
    ensures CString(name + Zeros(n)) == name
  {
    var b := name + Zeros(n);
    if name != [] {
      NameThenZeros(name[1..], n);
      assert b[1..] == name[1..] + Zeros(n);
    }
  }

  /** Slots with the two dots, one more entry perhaps, and nothing else. */
  function DotsAnd(no: Word, parent: Word, third: Entry): (r: seq<Entry>)
    ensures |r| == SLOTS
  {
    [Entry(Dot() + Zeros(15), no, FT_DIRECTORY), Entry(DotDot() + Zeros(14), parent, FT_DIRECTORY), third]
        + seq(SLOTS - 3, k => ZeroEntry())
  }

  function NameA(): seq<Byte> { [97] }

  lemma DotsAreOk(no: Word, parent: Word, third: Entry)
    requires third == ZeroEntry() || (IsEntry(third) && IsLive(third) && CString(third.name) == NameA())
    ensures SlotsOk(DotsAnd(no, parent, third))
  {
    hide CString;
    NameThenZeros(Dot(), 15);
    NameThenZeros(DotDot(), 14);
  }

  lemma RootSlots()
    ensures DirStore.BlocksExist(SmallDisk(), RootInode())
    ensures DirStore.Slots(SmallDisk(), RootInode()) == DotsAnd(0, 0, ZeroEntry())
  {
    hide SectorSlots, RootSector;
    RootSectorSlots();
  }

  lemma TwoLive(xs: seq<Entry>)
    requires |xs| >= 2 && IsLive(xs[0]) && IsLive(xs[1]) && forall k :: 2 <= k < |xs| ==> !IsLive(xs[k])
    ensures |Live(xs)| == 2
    decreases |xs|
  {
    if |xs| > 2 {
      TwoLive(xs[..|xs| - 1]);
    } else {
      assert xs[..1][..0] == [] && xs[..2] == xs && xs[..2][..1] == xs[..1];
      assert |Live(xs[..1])| == 1;
    }
  }

  lemma RootIsDirectory()
    ensures DirStore.DirOk(SmallVolume(), RootInode())
  {
    hide SlotsOk, HoldsBitmap, SmallDisk, DotsAnd, Live, DirStore.Slots;
    SmallVolumeIsOk();
    RootSlots();
    DotsAreOk(0, 0, ZeroEntry());
    assert |SmallDisk()| == 3 + TABLE_SECTORS + DATA_SECTS;
    RootCounts();
  }

  lemma RootCounts()
    ensures |Live(DotsAnd(0, 0, ZeroEntry()))| == 2
  {
    TwoLive(DotsAnd(0, 0, ZeroEntry()));
  }

  function EntryA(no: Word): Entry { Entry(NameA() + Zeros(15), no, FT_DIRECTORY) }

  /** The root, number 0, and one directory "a" in it. */
  function TreeOf(no: Word): map<Word, seq<Entry>> {
    map[0 := DotsAnd(0, 0, EntryA(no))][no := DotsAnd(no, 0, ZeroEntry())]
  }

  lemma TreeSlots(no: Word)
    requires 0 < no < MAX_INODES
    ensures SlotsOk(DotsAnd(0, 0, EntryA(no))) && SlotsOk(DotsAnd(no, 0, ZeroEntry()))
    ensures Paths.IsEntryOf(DotsAnd(0, 0, EntryA(no)), no, 2)
  {
    hide CString, SlotsOk;
    NameThenZeros(NameA(), 15);
    DotsAreOk(0, 0, EntryA(no));
    DotsAreOk(no, 0, ZeroEntry());
    assert DotsAnd(0, 0, EntryA(no))[2] == EntryA(no);
  }

  lemma DotsNode(no: Word, parent: Word, third: Entry)
    ensures var xs := DotsAnd(no, parent, third);
            && xs[0].no == no && xs[1].no == parent && xs[2] == third
            && forall n :: 3 <= n < SLOTS ==> xs[n] == ZeroEntry()
    ensures var xs := DotsAnd(no, parent, third); xs[0].ftype == FT_DIRECTORY && xs[1].ftype == FT_DIRECTORY
  {
  }

  lemma TreeNodes(no: Word)
    requires 0 < no < MAX_INODES
    ensures Paths.Sized(TreeOf(no)) && Paths.NodeOk(TreeOf(no), 0) && Paths.NodeOk(TreeOf(no), no)
    ensures Paths.HasEntry(TreeOf(no), no)
  {
    hide SlotsOk, CString, Paths.IsEntryOf, DotsAnd;
    TreeSlots(no);
    DotsNode(0, 0, EntryA(no));
    DotsNode(no, 0, ZeroEntry());
    var dirs := TreeOf(no);
    assert dirs[0] == DotsAnd(0, 0, EntryA(no)) && dirs[no] == DotsAnd(no, 0, ZeroEntry());
    assert Paths.IsEntryOf(dirs[Paths.ParentOf(dirs, no)], no, 2);
  }

  lemma TreeTypes(no: Word)
    requires 0 < no < MAX_INODES
    ensures Paths.TypesOk(TreeOf(no))
  {
    hide DotsAnd;
    DotsNode(0, 0, EntryA(no));
    DotsNode(no, 0, ZeroEntry());
  }

  lemma SmallTree(no: Word) returns (dirs: map<Word, seq<Entry>>, depth: map<Word, nat>)
    requires 0 < no < MAX_INODES
    ensures Paths.TreeOk(dirs) && Paths.DepthOk(dirs, depth) && Paths.TypesOk(dirs) && no in dirs
  {
    hide Paths.NodeOk, Paths.HasEntry, Paths.TypesOk, DotsAnd;
    dirs := TreeOf(no);
    depth := map[0 := 0, no := 1];
    TreeNodes(no);
    TreeTypes(no);
    DotsNode(no, 0, ZeroEntry());
  }

  /** The small volume with the root's inode in its slot. */
  function RootVolume(): Volume { SmallVolume().(disk := Synced(SmallDisk(), 3, RootInode())) }

  function RootOnly(): map<Word, seq<Entry>> { map[0 := DotsAnd(0, 0, ZeroEntry())] }

  lemma RootIsOnDisk()
    ensures VolumeOk(RootVolume()) && Walks.DirOnDisk(RootVolume(), 0, DotsAnd(0, 0, ZeroEntry()))
  {
    hide SmallDisk, DotsAnd, VolumeOk, SlotsOk, Synced, DirStore.Slots, Stored;
    RootIsDirectory();
    RootSlots();
    DirDelete.SyncKeepsDir(SmallVolume(), RootInode());
    SyncedSlots(SmallDisk(), 3, RootInode(), 0);
    Walks.SameBlocks(RootVolume(), Pure(RootInode()), RootInode());
  }

  /** A partition on which the walks of Walk.dfy can start. */
  method WalkFromRoot() returns (part: Partition, rootDir: DirRead.Dir)
    ensures fresh(part) && Walks.At(part, rootDir, rootDir, 0, RootOnly(), part.opens)
  {
    hide VolumeOk, Walks.DirOnDisk, Walks.InStep, Walks.OpenAsIn, RootVolume;
    RootIsOnDisk();
    part := new Partition(RootVolume());
    var node := Walks.OpenOne(part, 0, RootOnly());
    rootDir := new DirRead.Dir(node);
    Walks.AsBefore(part.opens);
  }

  // ---------- where the exact conditions fail ----------

  /** With "a" as number 256, a chdir into it and getcwd lead to the root instead. */
  lemma LostDirectory() returns (dirs: map<Word, seq<Entry>>, depth: map<Word, nat>)
    ensures Paths.TreeOk(dirs) && Paths.DepthOk(dirs, depth) && 256 in dirs && 0 in dirs && Paths.Cwd(256) == 0
    ensures Paths.Resolve(dirs, 0, 0, Paths.Components(Paths.PathOf(dirs, depth, Paths.Cwd(256))))
            == Paths.Directory(0, 0)
  {
    hide Paths.TreeOk, Paths.DepthOk, Paths.Resolve, Paths.Components, Paths.PathOf;
    dirs, depth := SmallTree(256);
    Paths.RootIsThere(dirs);
    Paths.GetcwdIsInverse(dirs, depth, 0);
  }

  lemma ZeroSlot()
    ensures Stored(SmallDisk(), 3, 256).no == 0
  {
    hide PackSector, RootSector;
    var p := Locate(3, 256);
    assert p == Position(false, 41, 0);
    assert SmallDisk()[41] == SmallSector(41) && SmallSector(41) == Zeros(SECTOR_SIZE);
    var b := SlotRead(SmallDisk(), 3, 256);
    assert b[..4] == [0, 0, 0, 0];
    assert Decode(b).no == BytesWords(b, 19)[0];
  }

  /** On the small disk inode 256 is lost: after a sync the reload still finds the zeros that its slot
      held before. */
  lemma LostInode(size: Word)
    ensures var i := Inode(256, size, 1, false, seq(13, k => 0));
            Stored(Synced(SmallDisk(), 3, i), 3, i.no) != Pure(i)
  {
    var i := Inode(256, size, 1, false, seq(13, k => 0));
    ZeroSlot();
    ReloadIff(SmallDisk(), 3, i);
  }
}
