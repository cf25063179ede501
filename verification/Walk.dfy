/** `search_file`, `sys_getcwd` and `sys_chdir` on a mounted partition (v1-src/fileSystem/fs.c:251-304,
    v1-src/fileSystem/fs.c:678-788): the walks of Path.dfy through inodes that are opened and closed and
    blocks that are read. */
module Walks {
  import opened Common
  import opened Disk
  import opened Inodes
  import opened Volumes
  import opened Directories
  import opened DirStore
  import opened DirRead
  import opened Paths

  // ---------- a tree on a partition ----------

  /** Directory d is on the disk and has these slots. */
  ghost predicate DirOnDisk(v: Volume, d: Word, xs: seq<Entry>) {
    && TableFits(v.disk, v.sb.inodeTableLba) && d < MAX_INODES
    && var i := Stored(v.disk, v.sb.inodeTableLba, d);
       i.no == d && DirOk(v, i) && Slots(v.disk, i) == xs
  }

  /** An inode in memory is the one on the disk, but for its count and its flag. */
  ghost predicate InStep(v: Volume, i: Inode) {
    && TableFits(v.disk, v.sb.inodeTableLba) && i.no < MAX_INODES && IsInode(i)
    && Pure(i) == Pure(Stored(v.disk, v.sb.inodeTableLba, i.no))
  }

  ghost predicate AllOnDisk(v: Volume, dirs: map<Word, seq<Entry>>) {
    forall d :: d in dirs ==> DirOnDisk(v, d, dirs[d])
  }

  /** Every directory of the tree is on the disk, and in memory too if it is open. */
  ghost predicate OnDisk(part: Partition, dirs: map<Word, seq<Entry>>)
    reads part, part.openInodes
  {
    && part.Valid() && AllOnDisk(part.V(), dirs)
    && (forall n :: n in part.openInodes && n.i.no in dirs ==> InStep(part.V(), n.i))
  }

  lemma SameDirectory(v: Volume, d: Word, i: Inode, xs: seq<Entry>)
    requires DirOnDisk(v, d, xs) && InStep(v, i) && i.no == d
    ensures DirOk(v, i) && Slots(v.disk, i) == xs
  {
    hide DirOk, Stored, Slots;
    SameBlocks(v, i, Stored(v.disk, v.sb.inodeTableLba, d));
  }

  /** Blocks and size are all that a directory is made of. */
  lemma SameBlocks(v: Volume, i: Inode, j: Inode)
    requires DirOk(v, j) && IsInode(i) && i.sectors == j.sectors && i.size == j.size
    ensures DirOk(v, i) && Slots(v.disk, i) == Slots(v.disk, j)
  {
    hide VolumeOk, SlotsOk, BlockSlots, BlocksUsed, Live, IsData, Layout;
    assert BlocksExist(v.disk, i) && Slots(v.disk, i) == Slots(v.disk, j) by { hide DirBlocksOk; }
    hide Slots;
    BlocksUsedToo(v.disk, i, j);
  }

  lemma BlocksUsedToo(disk: seq<Sector>, i: Inode, j: Inode)
    requires BlocksExist(disk, i) && BlocksExist(disk, j) && i.sectors == j.sectors && BlocksUsed(disk, j)
    ensures BlocksUsed(disk, i)
  {
  }

  /** Each number is open as often as in o0, and d once more if `more`. */
  ghost predicate OpenAsIn(o0: map<Word, nat>, o: map<Word, nat>, d: Word, more: bool) {
    forall x: Word :: Count(o, x) == Count(o0, x) + if more && x == d then 1 else 0
  }

  lemma OneMore(o0: map<Word, nat>, o: map<Word, nat>, o': map<Word, nat>, d: Word)
    requires OpenAsIn(o0, o, 0, false) && CountSet(o, o', d, Count(o, d) + 1)
    ensures OpenAsIn(o0, o', d, true)
  {
  }

  lemma OneLess(o0: map<Word, nat>, o: map<Word, nat>, o': map<Word, nat>, d: Word, c: nat)
    requires OpenAsIn(o0, o, d, true) && c == Count(o, d) && c > 0 && CountSet(o, o', d, c - 1)
    ensures OpenAsIn(o0, o', 0, false)
  {
  }

  lemma AsBefore(o: map<Word, nat>)
    ensures OpenAsIn(o, o, 0, false)
  {
  }

  // ---------- opening and closing ----------

  /** The inode_open of a directory of the tree. */
  method OpenOne(part: Partition, no: Word, ghost dirs: map<Word, seq<Entry>>) returns (node: MemInode)
    requires OnDisk(part, dirs) && no in dirs && Count(part.opens, no) < 0xFFFF_FFFF
    modifies part`openInodes, part`opens, part.openInodes
    ensures OnDisk(part, dirs) && node in part.openInodes && node.i.no == no
    ensures CountSet(old(part.opens), part.opens, no, Count(old(part.opens), no) + 1)
    ensures forall n :: n in old(part.openInodes) ==> n in part.openInodes && n.i.no == old(n.i.no)
    ensures forall k :: 0 <= k < |part.openInodes| ==>
              part.openInodes[k] in old(part.openInodes) || fresh(part.openInodes[k])
  {
    hide VolumeOk, DirOk, Stored, Slots, Partition.NodesOk, CountSet;
    ghost var v := part.V();
    CurrentNumber(part, no, dirs);
    node := part.InodeOpen(no);
    assert part.V() == v;
    forall n | n in part.openInodes && n.i.no in dirs ensures InStep(v, n.i) {
      if n in old(part.openInodes) {
        assert InStep(v, old(n.i));
      }
    }
  }

  lemma CurrentNumber(part: Partition, no: Word, dirs: map<Word, seq<Entry>>)
    requires OnDisk(part, dirs) && no in dirs
    ensures no < MAX_INODES && TableFits(part.disk, part.sb.inodeTableLba) && part.Current(no).no == no
    ensures Stored(part.disk, part.sb.inodeTableLba, no).no == no
  {
    hide VolumeOk, DirOk, Stored, Slots;
    assert DirOnDisk(part.V(), no, dirs[no]);
  }

  lemma CountOfOpen(part: Partition, node: MemInode)
    requires part.NodesOk() && node in part.openInodes
    ensures node.i.openCnts == Count(part.opens, node.i.no) > 0
  {
    var j :| 0 <= j < |part.openInodes| && part.openInodes[j] == node;
    ListAt(part.Nodes(), part.opens, j, j);
  }

  /** inode_close. */
  method CloseOne(part: Partition, node: MemInode, ghost dirs: map<Word, seq<Entry>>)
    requires OnDisk(part, dirs) && node in part.openInodes
    modifies part`openInodes, part`opens, node
    ensures OnDisk(part, dirs) && node.i.no == old(node.i.no) && Count(old(part.opens), old(node.i.no)) > 0
    ensures CountSet(old(part.opens), part.opens, old(node.i.no), Count(old(part.opens), old(node.i.no)) - 1)
    ensures node in part.openInodes <==> Count(old(part.opens), old(node.i.no)) > 1
    ensures forall n :: n != node ==> (n in part.openInodes <==> n in old(part.openInodes))
  {
    hide VolumeOk, DirOk, Stored, Slots, CountSet, Partition.NodesOk;
    ghost var v := part.V();
    CountOfOpen(part, node);
    part.InodeClose(node);
    assert part.V() == v;
    forall n | n in part.openInodes && n.i.no in dirs ensures InStep(v, n.i) {
      assert InStep(v, old(n.i));
    }
  }

  /** The walk is at directory d, whose open `dir` is; other than that every number is open as often as
      in o0. The root directory is open all the time, and closing it does nothing. */
  ghost predicate At(part: Partition, rootDir: Dir, dir: Dir, d: Word, dirs: map<Word, seq<Entry>>, o0: map<Word, nat>)
    reads part, part.openInodes
  {
    && OnDisk(part, dirs) && d in dirs && Count(o0, 0) > 0
    && rootDir.inode in part.openInodes && rootDir.inode.i.no == 0
    && dir.inode in part.openInodes && dir.inode.i.no == d
    && OpenAsIn(o0, part.opens, d, dir != rootDir)
  }

  /** No directory of the tree is open so often that its count could wrap around. */
  ghost predicate CanOpen(dirs: map<Word, seq<Entry>>, o0: map<Word, nat>) {
    forall d :: d in dirs ==> Count(o0, d) < 0xFFFF_FFFF
  }

  /** `dir_close` of where the walk is: every number is open as often as at first. */
  method DirClose(part: Partition, rootDir: Dir, dir: Dir, ghost d: Word, ghost dirs: map<Word, seq<Entry>>,
                  ghost o0: map<Word, nat>)
    requires At(part, rootDir, dir, d, dirs, o0)
    modifies part`openInodes, part`opens, part.openInodes
    ensures OnDisk(part, dirs) && OpenAsIn(o0, part.opens, 0, false)
    ensures rootDir.inode in part.openInodes && rootDir.inode.i.no == 0
    ensures forall k :: 0 <= k < |part.openInodes| ==> part.openInodes[k] in old(part.openInodes)
  {
    hide OnDisk, CountSet, OpenAsIn;
    if dir == rootDir {
      RootAsBefore(o0, part.opens, d);
      return;
    }
    ghost var o1 := part.opens;
    MoreThanOne(o0, o1, d);
    CloseOne(part, dir.inode, dirs);
    OneLess(o0, o1, part.opens, d, Count(o1, d));
  }

  lemma RootAsBefore(o0: map<Word, nat>, o: map<Word, nat>, d: Word)
    requires OpenAsIn(o0, o, d, false)
    ensures OpenAsIn(o0, o, 0, false)
  {
  }

  lemma MoreThanOne(o0: map<Word, nat>, o: map<Word, nat>, d: Word)
    requires OpenAsIn(o0, o, d, true)
    ensures Count(o, d) == Count(o0, d) + 1
  {
  }

  /** `dir_close` of one directory and `dir_open` of another. */
  method MoveTo(part: Partition, rootDir: Dir, dir: Dir, no: Word, ghost d: Word, ghost dirs: map<Word, seq<Entry>>,
                ghost o0: map<Word, nat>) returns (next: Dir)
    requires At(part, rootDir, dir, d, dirs, o0) && no in dirs && CanOpen(dirs, o0)
    modifies part`openInodes, part`opens, part.openInodes
    ensures At(part, rootDir, next, no, dirs, o0)
    ensures forall k :: 0 <= k < |part.openInodes| ==>
              part.openInodes[k] in old(part.openInodes) || fresh(part.openInodes[k])
  {
    hide OnDisk, CountSet, OpenAsIn;
    DirClose(part, rootDir, dir, d, dirs, o0);
    ghost var o1 := part.opens;
    SameCount(o0, o1, no);
    var node := OpenOne(part, no, dirs);
    OneMore(o0, o1, part.opens, no);
    next := new Dir(node);
  }

  lemma SameCount(o0: map<Word, nat>, o: map<Word, nat>, d: Word)
    requires OpenAsIn(o0, o, 0, false)
    ensures Count(o, d) == Count(o0, d)
  {
  }

  // ---------- search_file ----------

  /** The number, the type and the parent are those of folding directory lookup over the components. */
  ghost predicate Found(dirs: map<Word, seq<Entry>>, pathname: Path, no: int, fileType: Word, parentDir: Word) {
    TreeOk(dirs) && 0 in dirs && Reports(Resolve(dirs, 0, 0, Components(pathname)), no, fileType, parentDir)
  }

  /** The path that was searched has exactly the components that were looked up. */
  ghost predicate SearchedFor(dirs: map<Word, seq<Entry>>, pathname: Path, searchedPath: Path) {
    && TreeOk(dirs) && 0 in dirs
    && var k := Walked(dirs, 0, Components(pathname));
       k <= |Components(pathname)| && searchedPath == Joined(Components(pathname)[..k])
  }

  /** search_dir_entry in the directory where the walk is: the lookup of Path.dfy. */
  method LookUp(part: Partition, dir: Dir, name: Path, ghost d: Word, ghost dirs: map<Word, seq<Entry>>)
    returns (found: bool, dirE: Entry)
    requires OnDisk(part, dirs) && d in dirs && dir.inode in part.openInodes && dir.inode.i.no == d && name != []
    ensures SlotsOk(dirs[d]) && (found <==> name in Names(dirs[d]))
    ensures found ==> Names(dirs[d])[name] == (dirE.no, dirE.ftype)
  {
    hide VolumeOk, Names, SlotsOk, Slots, Stored, InStep, Partition.NodesOk, DirBlocksOk, BlocksUsed;
    assert DirOnDisk(part.V(), d, dirs[d]) && InStep(part.V(), dir.inode.i);
    SameDirectory(part.V(), d, dir.inode.i, dirs[d]);
    found, dirE := SearchDirEntry(part, dir.inode.i, name);
  }

  /** How far the walk has come: k components are behind it, it is at `dir` and came from `parent`, and
      `name` is the next component, empty behind the last. */
  ghost predicate Progress(dirs: map<Word, seq<Entry>>, pathname: Path, k: nat, parent: Word, dir: Word, name: Path,
                           subPath: Path, searchedPath: Path) {
    var all := Components(pathname);
    && TreeOk(dirs) && 0 in dirs && dir in dirs && parent in dirs
    && k <= |all| && searchedPath == Joined(all[..k])
    && all[k..] == (if name == [] then [] else [name] + Components(subPath))
    && Resolve(dirs, 0, 0, all) == Resolve(dirs, parent, dir, all[k..])
    && Walked(dirs, 0, all) == k + Walked(dirs, dir, all[k..])
  }

  /** Another component at the end. */
  function Longer(p: Path, name: Path): Path {
    assert forall k :: 0 <= k < |p + [SLASH] + name| ==> 0 <= (p + [SLASH] + name)[k] < 0x100;
    p + [SLASH] + name
  }

  /** What path_parse leaves of a path. */
  ghost predicate Parsed(pathname: Path, name: Path, rest: Path) {
    name == FirstName(Skipped(pathname)) && rest == AfterName(Skipped(pathname))
  }

  lemma ParsedComponents(pathname: Path, name: Path, rest: Path)
    requires Parsed(pathname, name, rest)
    ensures Components(pathname) == if name == [] then [] else [name] + Components(rest)
  {
  }

  lemma ProgressBegins(dirs: map<Word, seq<Entry>>, pathname: Path, name: Path, subPath: Path)
    requires TreeOk(dirs) && Parsed(pathname, name, subPath)
    ensures Progress(dirs, pathname, 0, 0, 0, name, subPath, [])
  {
    hide TreeOk, Resolve, Joined, Walked, Parsed;
    RootIsThere(dirs);
    ParsedComponents(pathname, name, subPath);
    NothingJoined(Components(pathname));
    assert Components(pathname)[0..] == Components(pathname);
  }

  /** The searched path stays within its buffer, and there is another component. */
  lemma ProgressFits(dirs: map<Word, seq<Entry>>, pathname: Path, k: nat, parent: Word, dir: Word, name: Path,
                     subPath: Path, searchedPath: Path)
    requires pathname != [] && pathname[0] == SLASH && name != []
    requires Progress(dirs, pathname, k, parent, dir, name, subPath, searchedPath)
    ensures |searchedPath| <= |pathname| && k < |Components(pathname)|
    ensures Longer(searchedPath, name) == Joined(Components(pathname)[..k + 1])
  {
    hide TreeOk, Resolve, Joined, Walked;
    var all := Components(pathname);
    JoinedFits(pathname);
    JoinedMore(all, k);
    assert all[k] == all[k..][0];
    NextJoined(all, k);
  }

  lemma ProgressMissing(dirs: map<Word, seq<Entry>>, pathname: Path, k: nat, parent: Word, dir: Word, name: Path,
                        subPath: Path, searchedPath: Path)
    requires pathname != [] && pathname[0] == SLASH && name != []
    requires dir in dirs && SlotsOk(dirs[dir]) && name !in Names(dirs[dir])
    requires Progress(dirs, pathname, k, parent, dir, name, subPath, searchedPath)
    ensures Found(dirs, pathname, -1, FT_UNKNOWN, dir) && SearchedFor(dirs, pathname, Longer(searchedPath, name))
  {
    ProgressFits(dirs, pathname, k, parent, dir, name, subPath, searchedPath);
    hide TreeOk, Resolve, Joined, Walked, SlotsOk, Names;
    ResolveMissing(dirs, parent, dir, Components(pathname)[k..]);
    WalkedStop(dirs, dir, Components(pathname)[k..]);
  }

  lemma ProgressFile(dirs: map<Word, seq<Entry>>, pathname: Path, k: nat, parent: Word, dir: Word, name: Path,
                     subPath: Path, searchedPath: Path, e: Word)
    requires pathname != [] && pathname[0] == SLASH && name != []
    requires dir in dirs && SlotsOk(dirs[dir]) && name in Names(dirs[dir])
    requires Names(dirs[dir])[name].0 == e && Names(dirs[dir])[name].1 != FT_DIRECTORY && TypesOk(dirs)
    requires Progress(dirs, pathname, k, parent, dir, name, subPath, searchedPath)
    ensures Found(dirs, pathname, e, FT_REGULAR, dir) && SearchedFor(dirs, pathname, Longer(searchedPath, name))
  {
    ProgressFits(dirs, pathname, k, parent, dir, name, subPath, searchedPath);
    hide TreeOk, Resolve, Joined, Walked, SlotsOk, Names, TypesOk;
    EntryType(dirs, dir, name);
    ResolveFile(dirs, parent, dir, Components(pathname)[k..]);
    WalkedStop(dirs, dir, Components(pathname)[k..]);
  }

  lemma TailOf(all: seq<Path>, k: nat, name: Path, rest: seq<Path>)
    requires k < |all| && all[k..] == [name] + rest
    ensures all[k..][1..] == rest && all[k + 1..] == rest && all[k..][0] == name
  {
    assert all[k..][1..] == all[k + 1..];
  }

  lemma StepDown(dirs: map<Word, seq<Entry>>, parent: Word, d: Word, names: seq<Path>, name: Path, rest: seq<Path>,
                 e: Word)
    requires d in dirs && names == [name] + rest && SlotsOk(dirs[d]) && name in Names(dirs[d])
    requires Names(dirs[d])[name] == (e, FT_DIRECTORY)
    requires TreeOk(dirs)
    ensures e in dirs && Resolve(dirs, parent, d, names) == Resolve(dirs, d, e, rest)
    ensures Walked(dirs, d, names) == 1 + Walked(dirs, e, rest)
  {
    hide TreeOk, Resolve, Walked, SlotsOk, Names;
    assert names[0] == name && names[1..] == rest;
    ResolveStep(dirs, parent, d, names);
    WalkedStep(dirs, d, names);
  }

  lemma ProgressParts(dirs: map<Word, seq<Entry>>, pathname: Path, k: nat, parent: Word, dir: Word, name: Path,
                      subPath: Path, searchedPath: Path)
    requires Progress(dirs, pathname, k, parent, dir, name, subPath, searchedPath) && name != []
    ensures TreeOk(dirs) && 0 in dirs && dir in dirs && parent in dirs && k <= |Components(pathname)|
    ensures Components(pathname)[k..] == [name] + Components(subPath)
    ensures Resolve(dirs, 0, 0, Components(pathname)) == Resolve(dirs, parent, dir, Components(pathname)[k..])
    ensures Walked(dirs, 0, Components(pathname)) == k + Walked(dirs, dir, Components(pathname)[k..])
  {
    hide TreeOk, Resolve, Walked, Components, Joined;
  }

  lemma MakeProgress(dirs: map<Word, seq<Entry>>, pathname: Path, k: nat, parent: Word, dir: Word, name: Path,
                     subPath: Path, searchedPath: Path)
    requires 0 in dirs && dir in dirs && parent in dirs && k <= |Components(pathname)|
    requires searchedPath == Joined(Components(pathname)[..k])
    requires Components(pathname)[k..] == if name == [] then [] else [name] + Components(subPath)
    requires TreeOk(dirs)
    requires Resolve(dirs, 0, 0, Components(pathname)) == Resolve(dirs, parent, dir, Components(pathname)[k..])
    requires Walked(dirs, 0, Components(pathname)) == k + Walked(dirs, dir, Components(pathname)[k..])
    ensures Progress(dirs, pathname, k, parent, dir, name, subPath, searchedPath)
  {
    hide TreeOk, Resolve, Walked, Components, Joined;
  }

  lemma ProgressStep(dirs: map<Word, seq<Entry>>, pathname: Path, k: nat, parent: Word, dir: Word, name: Path,
                     subPath: Path, searchedPath: Path, e: Word, name': Path, subPath': Path)
    requires pathname != [] && pathname[0] == SLASH && name != []
    requires dir in dirs && SlotsOk(dirs[dir]) && name in Names(dirs[dir])
    requires Names(dirs[dir])[name] == (e, FT_DIRECTORY) && Parsed(subPath, name', subPath')
    requires Progress(dirs, pathname, k, parent, dir, name, subPath, searchedPath)
    ensures Progress(dirs, pathname, k + 1, dir, e, name', subPath', Longer(searchedPath, name)) && e in dirs
    ensures k < |Components(pathname)|
  {
    hide Progress, TreeOk, Resolve, Joined, Walked, SlotsOk, Names, Parsed, Components, Longer;
    var all := Components(pathname);
    ProgressFits(dirs, pathname, k, parent, dir, name, subPath, searchedPath);
    ProgressParts(dirs, pathname, k, parent, dir, name, subPath, searchedPath);
    ParsedComponents(subPath, name', subPath');
    TailOf(all, k, name, Components(subPath));
    StepDown(dirs, parent, dir, all[k..], name, Components(subPath), e);
    MakeProgress(dirs, pathname, k + 1, dir, e, name', subPath', Longer(searchedPath, name));
  }

  lemma ProgressEnds(dirs: map<Word, seq<Entry>>, pathname: Path, k: nat, parent: Word, dir: Word, subPath: Path,
                     searchedPath: Path)
    requires Progress(dirs, pathname, k, parent, dir, [], subPath, searchedPath)
    ensures Found(dirs, pathname, dir, FT_DIRECTORY, parent) && SearchedFor(dirs, pathname, searchedPath)
  {
    hide TreeOk, Resolve, Joined, Walked;
    ResolveEnd(dirs, parent, dir);
    WalkedStop(dirs, dir, Components(pathname)[k..]);
  }

  /** The loop of search_file. */
  method SearchDown(part: Partition, rootDir: Dir, pathname: Path, ghost dirs: map<Word, seq<Entry>>)
    returns (no: int, fileType: Word, parentDir: Dir, searchedPath: Path)
    requires 1 < |pathname| < MAX_PATH_LEN && pathname[0] == SLASH && Components(pathname) != []
    requires TreeOk(dirs) && TypesOk(dirs)
    requires At(part, rootDir, rootDir, 0, dirs, part.opens) && CanOpen(dirs, part.opens)
    modifies part`openInodes, part`opens, part.openInodes
    ensures At(part, rootDir, parentDir, parentDir.inode.i.no, dirs, old(part.opens))
    ensures forall k :: 0 <= k < |part.openInodes| ==>
              part.openInodes[k] in old(part.openInodes) || fresh(part.openInodes[k])
    ensures Found(dirs, pathname, no, fileType, parentDir.inode.i.no)
    ensures SearchedFor(dirs, pathname, searchedPath)
  {
    hide TreeOk, TypesOk, SlotsOk, Names, OnDisk, OpenAsIn, CanOpen, Progress, Parsed, Found, SearchedFor;
    ghost var o0 := part.opens;
    var parentInodeNo: Word := 0;
    fileType, parentDir, searchedPath, no := FT_UNKNOWN, rootDir, [], 0;
    ghost var k, dir: Word := 0, 0;
    var isNull, subPath, name := PathParse(pathname);
    AsParsed(pathname, name, subPath);
    ProgressBegins(dirs, pathname, name, subPath);
    AsParsedFirst(pathname, name, subPath);
    hide Components;
    while name != []
      invariant At(part, rootDir, parentDir, dir, dirs, o0) && parentInodeNo in dirs
      invariant forall k :: 0 <= k < |part.openInodes| ==>
                  part.openInodes[k] in old(part.openInodes) || fresh(part.openInodes[k])
      invariant Progress(dirs, pathname, k, parentInodeNo, dir, name, subPath, searchedPath)
      invariant fileType == FT_UNKNOWN && 0 <= k <= |Components(pathname)|
      invariant (k == 0 ==> name != []) && (k > 0 ==> no == dir)
      decreases |Components(pathname)| - k
    {
      ProgressFits(dirs, pathname, k, parentInodeNo, dir, name, subPath, searchedPath);
      assert |searchedPath| < 512;
      ghost var before, next := searchedPath, name;
      searchedPath := searchedPath + [SLASH];
      searchedPath := searchedPath + name;
      var found, dirE := LookUp(part, parentDir, name, dir, dirs);
      if !found {
        ProgressMissing(dirs, pathname, k, parentInodeNo, dir, name, subPath, before);
        return -1, FT_UNKNOWN, parentDir, searchedPath;
      }
      ghost var rest := subPath;
      if dirE.ftype != FT_DIRECTORY {
        ProgressFile(dirs, pathname, k, parentInodeNo, dir, name, subPath, before, dirE.no);
        return dirE.no, FT_REGULAR, parentDir, searchedPath;
      }
      isNull, subPath, name := PathParse(subPath);
      AsParsed(rest, name, subPath);
      ProgressStep(dirs, pathname, k, parentInodeNo, dir, next, rest, before, dirE.no, name, subPath);
      parentInodeNo := parentDir.inode.i.no;
      parentDir := MoveTo(part, rootDir, parentDir, dirE.no, dir, dirs, o0);
      dir, k := dirE.no, k + 1;
      no := dirE.no;
    }
    ProgressEnds(dirs, pathname, k, parentInodeNo, dir, subPath, searchedPath);
    parentDir := MoveTo(part, rootDir, parentDir, parentInodeNo, dir, dirs, o0);
    fileType := FT_DIRECTORY;
  }

  lemma AsParsed(pathname: Path, name: Path, rest: Path)
    requires name == FirstName(Skipped(pathname)) && rest == AfterName(Skipped(pathname))
    ensures Parsed(pathname, name, rest)
  {
  }

  lemma AsParsedFirst(pathname: Path, name: Path, rest: Path)
    requires Parsed(pathname, name, rest) && Components(pathname) != []
    ensures name != []
  {
  }

  /** `search_file` for an absolute path with at least one component, or "/" alone: the fold of
      directory lookups over the path's components. The source's buffer for a name takes 15 bytes,
      and its entry buffer is not initialised for a path of several slashes only. The path that was
      searched holds exactly the components that were looked up. */
  method SearchFile(part: Partition, rootDir: Dir, pathname: Path, ghost dirs: map<Word, seq<Entry>>)
    returns (no: int, fileType: Word, parentDir: Dir, searchedPath: Path)
    requires 0 < |pathname| < MAX_PATH_LEN && pathname[0] == SLASH && ShortNames(pathname)
    requires pathname == [SLASH] || Components(pathname) != []
    requires TreeOk(dirs) && TypesOk(dirs)
    requires At(part, rootDir, rootDir, 0, dirs, part.opens) && CanOpen(dirs, part.opens)
    modifies part`openInodes, part`opens, part.openInodes
    ensures At(part, rootDir, parentDir, parentDir.inode.i.no, dirs, old(part.opens))
    ensures forall k :: 0 <= k < |part.openInodes| ==>
              part.openInodes[k] in old(part.openInodes) || fresh(part.openInodes[k])
    ensures Found(dirs, pathname, no, fileType, parentDir.inode.i.no)
    ensures if IsRootPath(pathname) then searchedPath == [] else SearchedFor(dirs, pathname, searchedPath)
  {
    hide TreeOk, TypesOk, SlotsOk, Names, Resolve, Joined, Walked, OnDisk, OpenAsIn, CanOpen;
    assert rootDir.inode.i.no == 0;
    hide At, Reports;
    if IsRootPath(pathname) {
      SpecialComponents();
      RootIsThere(dirs);
      ResolveEnd(dirs, 0, 0);
      if pathname == [SLASH, 46] {
        RootDots(dirs, Dot());
      } else if pathname == [SLASH, 46, 46] {
        RootDots(dirs, DotDot());
      }
      RootReports(rootDir);
      return 0, FT_DIRECTORY, rootDir, [];
    }
    no, fileType, parentDir, searchedPath := SearchDown(part, rootDir, pathname, dirs);
  }

  lemma RootReports(rootDir: Dir)
    requires rootDir.inode.i.no == 0
    ensures Reports(Directory(0, 0), 0, FT_DIRECTORY, rootDir.inode.i.no)
  {
  }

  // ---------- sys_getcwd ----------

  lemma BackAgain(o0: map<Word, nat>, o1: map<Word, nat>, o2: map<Word, nat>, no: Word)
    requires CountSet(o0, o1, no, Count(o0, no) + 1) && Count(o1, no) > 0 && CountSet(o1, o2, no, Count(o1, no) - 1)
    ensures OpenAsIn(o0, o2, 0, false) && Count(o1, no) == Count(o0, no) + 1
  {
  }

  lemma StillAsIn(o0: map<Word, nat>, o1: map<Word, nat>, o2: map<Word, nat>, d: Word, more: bool)
    requires OpenAsIn(o0, o1, 0, false) && OpenAsIn(o1, o2, d, more)
    ensures OpenAsIn(o0, o2, d, more)
  {
  }

  /** inode_open, a copy of the inode's blocks, inode_close. */
  method BlocksOfDir(part: Partition, no: Word, ghost dirs: map<Word, seq<Entry>>)
    returns (sectors: seq<Word>, ghost i: Inode)
    requires OnDisk(part, dirs) && no in dirs && Count(part.opens, no) < 0xFFFF_FFFF
    modifies part`openInodes, part`opens, part.openInodes
    ensures OnDisk(part, dirs) && OpenAsIn(old(part.opens), part.opens, 0, false)
    ensures forall n :: n in old(part.openInodes) ==> n in part.openInodes && n.i.no == old(n.i.no)
    ensures forall k :: 0 <= k < |part.openInodes| ==>
              part.openInodes[k] in old(part.openInodes) || fresh(part.openInodes[k])
    ensures DirOk(part.V(), i) && Slots(part.disk, i) == dirs[no] && sectors == i.sectors
  {
    hide CountSet, OpenAsIn, Partition.NodesOk, VolumeOk, DirOk, Slots, InStep, DirOnDisk;
    ghost var o0 := part.opens;
    forall n | n in part.openInodes ensures Count(o0, n.i.no) > 0 { CountOfOpen(part, n); }
    var node := OpenOne(part, no, dirs);
    ghost var o1 := part.opens;
    ghost var between := part.openInodes;
    assert node in old(part.openInodes) || fresh(node);
    sectors, i := node.i.sectors, node.i;
    SameDirectory(part.V(), no, i, dirs[no]);
    CloseOne(part, node, dirs);
    BackAgain(o0, o1, part.opens, no);
    forall k | 0 <= k < |part.openInodes|
      ensures part.openInodes[k] in old(part.openInodes) || fresh(part.openInodes[k])
    {
      var n := part.openInodes[k];
      assert n in part.openInodes && n in between;
    }
  }

  /** `get_parent_dir_inode_nr`: the number in the second slot. */
  method GetParentDirInodeNr(part: Partition, child: Word, ghost dirs: map<Word, seq<Entry>>) returns (no: Word)
    requires child in dirs && TreeOk(dirs)
    requires OnDisk(part, dirs) && Count(part.opens, child) < 0xFFFF_FFFF
    modifies part`openInodes, part`opens, part.openInodes
    ensures OnDisk(part, dirs) && OpenAsIn(old(part.opens), part.opens, 0, false)
    ensures forall n :: n in old(part.openInodes) ==> n in part.openInodes && n.i.no == old(n.i.no)
    ensures forall k :: 0 <= k < |part.openInodes| ==>
              part.openInodes[k] in old(part.openInodes) || fresh(part.openInodes[k])
    ensures |dirs[child]| == SLOTS && no == ParentOf(dirs, child)
  {
    hide OnDisk, OpenAsIn, TreeOk, VolumeOk, SlotsOk, Slots, EntryAt, BlocksUsed;
    SlotsAreOk(dirs, child);
    ParentEntry(dirs, child);
    var sectors, i := BlocksOfDir(part, child, dirs);
    var blockLba := sectors[0];
    assert blockLba >= part.sb.dataStartLba;
    var ioBuf := part.disk[blockLba];
    SlotIsEntry(part.disk, i, 0, 1);
    var dirE := EntryAt(ioBuf, 1);
    assert dirE.no < 4096 && dirE.ftype == FT_DIRECTORY;
    no := dirE.no;
  }

  /** `get_child_dir_name`: the name of the first entry of the parent with the child's number. */
  method GetChildDirName(part: Partition, parent: Word, c: Word, ghost dirs: map<Word, seq<Entry>>, ghost n: int)
    returns (found: bool, name: Path)
    requires parent in dirs && |dirs[parent]| == SLOTS && IsEntryOf(dirs[parent], c, n) && c != 0
    requires OnDisk(part, dirs) && Count(part.opens, parent) < 0xFFFF_FFFF
    modifies part`openInodes, part`opens, part.openInodes
    ensures OnDisk(part, dirs) && OpenAsIn(old(part.opens), part.opens, 0, false)
    ensures forall n :: n in old(part.openInodes) ==> n in part.openInodes && n.i.no == old(n.i.no)
    ensures forall k :: 0 <= k < |part.openInodes| ==>
              part.openInodes[k] in old(part.openInodes) || fresh(part.openInodes[k])
    ensures found && name == CString(dirs[parent][n].name)
  {
    hide OnDisk, OpenAsIn;
    var sectors, i := BlocksOfDir(part, parent, dirs);
    found, name := NameInBlocks(part, sectors, c, i, n);
  }

  /** Its loops. */
  method NameInBlocks(part: Partition, allSectors: seq<Word>, c: Word, ghost i: Inode, ghost n: int)
    returns (found: bool, name: Path)
    requires DirOk(part.V(), i) && allSectors == i.sectors && IsEntryOf(Slots(part.disk, i), c, n) && c != 0
    ensures found && name == CString(Slots(part.disk, i)[n].name)
  {
    hide VolumeOk, SlotsOk, Slots, BlockSlots, EntryAt, CString, Live, BlocksUsed;
    ghost var xs := Slots(part.disk, i);
    var blockIdx := 0;
    while blockIdx < 12
      invariant 0 <= blockIdx <= 12
      invariant forall m :: 0 <= m < PER_SECTOR * blockIdx ==> xs[m].no != c
    {
      if allSectors[blockIdx] != 0 {
        var ioBuf := part.disk[allSectors[blockIdx]];
        var dirEIdx := 0;
        while dirEIdx < PER_SECTOR
          invariant 0 <= dirEIdx <= PER_SECTOR
          invariant forall m :: 0 <= m < PER_SECTOR * blockIdx + dirEIdx ==> xs[m].no != c
        {
          SlotIsEntry(part.disk, i, blockIdx, dirEIdx);
          var dirE := EntryAt(ioBuf, dirEIdx);
          if dirE.no == c {
            return true, CString(dirE.name);
          }
          dirEIdx := dirEIdx + 1;
        }
      } else {
        MissingBlock(part.disk, i, blockIdx);
      }
      blockIdx := blockIdx + 1;
    }
    assert false;
    return false, [];
  }

  /** `sys_getcwd`: the path of the directory with number cwd. Every inode that is opened on the way is
      closed again. */
  method SysGetcwd(part: Partition, cwd: Word, size: int, ghost dirs: map<Word, seq<Entry>>,
                   ghost depth: map<Word, nat>) returns (buf: Path)
    requires cwd in dirs && cwd < 0x100 && TreeOk(dirs) && DepthOk(dirs, depth)
    requires |PathOf(dirs, depth, cwd)| < MAX_PATH_LEN && |PathOf(dirs, depth, cwd)| <= size
    requires OnDisk(part, dirs) && CanOpen(dirs, part.opens)
    modifies part`openInodes, part`opens, part.openInodes
    ensures buf == PathOf(dirs, depth, cwd)
    ensures OnDisk(part, dirs) && OpenAsIn(old(part.opens), part.opens, 0, false)
    ensures forall n :: n in old(part.openInodes) ==> n in part.openInodes && n.i.no == old(n.i.no)
    ensures forall k :: 0 <= k < |part.openInodes| ==>
              part.openInodes[k] in old(part.openInodes) || fresh(part.openInodes[k])
  {
    hide TreeOk, SlotsOk, CString, Joined, IsEntryOf, Reversed, OnDisk, OpenAsIn, NamesTo, DepthOk;
    ghost var o0 := part.opens;
    AsBefore(o0);
    if cwd == 0 {
      return [SLASH];
    }
    var child, full := cwd, [];
    ghost var rs := [];
    DepthsAreThere(dirs, depth) by { TreeIsSized(dirs); }
    ReversedNothing();
    assert NamesTo(dirs, depth, cwd) + [] == NamesTo(dirs, depth, cwd);
    while child != 0
      invariant child in dirs && full == Joined(rs)
      invariant NamesTo(dirs, depth, cwd) == NamesTo(dirs, depth, child) + Reversed(rs)
      invariant OnDisk(part, dirs) && OpenAsIn(o0, part.opens, 0, false)
      invariant forall n :: n in old(part.openInodes) ==> n in part.openInodes && n.i.no == old(n.i.no)
      invariant forall k :: 0 <= k < |part.openInodes| ==>
                  part.openInodes[k] in old(part.openInodes) || fresh(part.openInodes[k])
      decreases depth[child]
    {
      var parent, name := OneUp(part, child, dirs, depth, o0);
      ghost var before := full;
      full := full + [SLASH];
      full := full + name;
      ReversedMore(rs, name);
      JoinedOneMore(rs, name);
      assert NamesTo(dirs, depth, parent) + [name] + Reversed(rs) == NamesTo(dirs, depth, parent)
          + ([name] + Reversed(rs));
      rs := rs + [name];
      child := parent;
    }
    RootHasNoNames(dirs, depth);
    assert NamesTo(dirs, depth, cwd) == Reversed(rs);
    NamesAreNames(dirs, depth, cwd);
    ReversedLength(rs);
    assert |full| <= size;
    buf := ReverseCopy(full, rs);
  }

  lemma TreeIsSized(dirs: map<Word, seq<Entry>>)
    requires TreeOk(dirs)
    ensures Sized(dirs)
  {
  }

  lemma DepthsAreThere(dirs: map<Word, seq<Entry>>, depth: map<Word, nat>)
    requires Sized(dirs) && DepthOk(dirs, depth)
    ensures forall d :: d in dirs ==> d in depth
  {
  }

  lemma RootHasNoNames(dirs: map<Word, seq<Entry>>, depth: map<Word, nat>)
    requires TreeOk(dirs) && DepthOk(dirs, depth) && 0 in dirs
    ensures NamesTo(dirs, depth, 0) == []
  {
  }

  /** One round of the walk up: the parent of a directory, and its name there. */
  method OneUp(part: Partition, child: Word, ghost dirs: map<Word, seq<Entry>>, ghost depth: map<Word, nat>,
               ghost o0: map<Word, nat>) returns (parent: Word, name: Path)
    requires child in dirs && child != 0 && TreeOk(dirs) && DepthOk(dirs, depth)
    requires OnDisk(part, dirs) && OpenAsIn(o0, part.opens, 0, false) && CanOpen(dirs, o0)
    modifies part`openInodes, part`opens, part.openInodes
    ensures OnDisk(part, dirs) && OpenAsIn(o0, part.opens, 0, false)
    ensures forall n :: n in old(part.openInodes) ==> n in part.openInodes && n.i.no == old(n.i.no)
    ensures forall k :: 0 <= k < |part.openInodes| ==>
              part.openInodes[k] in old(part.openInodes) || fresh(part.openInodes[k])
    ensures parent in dirs && depth[parent] < depth[child]
    ensures NamesTo(dirs, depth, child) == NamesTo(dirs, depth, parent) + [name]
  {
    hide TreeOk, SlotsOk, CString, IsEntryOf, OnDisk, OpenAsIn;
    SlotsAreOk(dirs, child);
    ghost var o1 := part.opens;
    SameCount(o0, o1, child);
    parent := GetParentDirInodeNr(part, child, dirs);
    StillAsIn(o0, o1, part.opens, 0, false);
    ghost var n := EntrySlot(dirs, child);
    SlotsAreOk(dirs, parent);
    ghost var o2 := part.opens;
    SameCount(o0, o2, parent);
    var found;
    found, name := GetChildDirName(part, parent, child, dirs, n);
    StillAsIn(o0, o2, part.opens, 0, false);
  }

  /** `sys_getcwd` and then `search_file` on its buffer: the directory again, with its parent open. */
  method GetcwdThenSearch(part: Partition, rootDir: Dir, cwd: Word, size: int, ghost dirs: map<Word, seq<Entry>>,
                          ghost depth: map<Word, nat>) returns (no: int, fileType: Word, parentDir: Dir)
    requires cwd in dirs && cwd < 0x100 && TreeOk(dirs) && DepthOk(dirs, depth) && TypesOk(dirs)
    requires |PathOf(dirs, depth, cwd)| < MAX_PATH_LEN && |PathOf(dirs, depth, cwd)| <= size
    requires At(part, rootDir, rootDir, 0, dirs, part.opens) && CanOpen(dirs, part.opens)
    modifies part`openInodes, part`opens, part.openInodes
    ensures no == cwd && fileType == FT_DIRECTORY
    ensures IsParent(dirs, cwd, parentDir.inode.i.no)
    ensures At(part, rootDir, parentDir, parentDir.inode.i.no, dirs, old(part.opens))
  {
    hide TreeOk, DepthOk, TypesOk, Resolve, PathOf, Components, ShortNames, OnDisk, OpenAsIn, CanOpen, Found;
    hide SearchedFor;
    ghost var o0 := part.opens;
    var buf := SysGetcwd(part, cwd, size, dirs, depth);
    ghost var o1 := part.opens;
    PathIsSearchable(dirs, depth, cwd);
    SameCount(o0, o1, 0);
    AsBefore(o1);
    StillCanOpen(dirs, o0, o1);
    var searchedPath;
    no, fileType, parentDir, searchedPath := SearchFile(part, rootDir, buf, dirs);
    StillAsIn(o0, o1, part.opens, parentDir.inode.i.no, parentDir != rootDir);
    FoundAgain(dirs, depth, cwd, no, fileType, parentDir.inode.i.no);
  }

  /** The directory in which the entry of c is; the root is in itself. */
  ghost predicate IsParent(dirs: map<Word, seq<Entry>>, c: Word, p: Word) {
    c in dirs && |dirs[c]| == SLOTS && p == if c == 0 then 0 else ParentOf(dirs, c)
  }

  lemma FoundAgain(dirs: map<Word, seq<Entry>>, depth: map<Word, nat>, c: Word, no: int, fileType: Word, p: Word)
    requires c in dirs && TreeOk(dirs) && DepthOk(dirs, depth) && Found(dirs, PathOf(dirs, depth, c), no, fileType, p)
    ensures no == c && fileType == FT_DIRECTORY && IsParent(dirs, c, p)
  {
    hide TreeOk, DepthOk, Resolve, PathOf, Components;
    GetcwdIsInverse(dirs, depth, c);
    SlotsAreOk(dirs, c);
  }

  lemma StillCanOpen(dirs: map<Word, seq<Entry>>, o0: map<Word, nat>, o1: map<Word, nat>)
    requires CanOpen(dirs, o0) && OpenAsIn(o0, o1, 0, false)
    ensures CanOpen(dirs, o1)
  {
  }

  /** `sys_chdir`: 0 exactly when the path leads to a directory, whose number then becomes the working
      directory, cut to a byte. What was opened on the way is closed again. */
  method SysChdir(part: Partition, rootDir: Dir, path: Path, cwd: Word, ghost dirs: map<Word, seq<Entry>>)
    returns (ret: int, newCwd: Word)
    requires 0 < |path| < MAX_PATH_LEN && path[0] == SLASH && ShortNames(path)
    requires path == [SLASH] || Components(path) != []
    requires TreeOk(dirs) && TypesOk(dirs)
    requires At(part, rootDir, rootDir, 0, dirs, part.opens) && CanOpen(dirs, part.opens)
    modifies part`openInodes, part`opens, part.openInodes
    ensures ret == 0 || (ret == -1 && newCwd == cwd)
    ensures LeadsTo(dirs, path, ret == 0, newCwd)
    ensures At(part, rootDir, rootDir, 0, dirs, part.opens) && OpenAsIn(old(part.opens), part.opens, 0, false)
  {
    hide TreeOk, TypesOk, Components, ShortNames, OnDisk, OpenAsIn, CanOpen, Found, SearchedFor, LeadsTo;
    ghost var o0 := part.opens;
    ret, newCwd := -1, cwd;
    var inodeNo, fileType, parentDir, searchedPath := SearchFile(part, rootDir, path, dirs);
    FoundDirectory(dirs, path, inodeNo, fileType, parentDir.inode.i.no, cwd);
    if inodeNo != -1 {
      if fileType == FT_DIRECTORY {
        ret, newCwd := 0, inodeNo % 0x100;
      }
    }
    DirClose(part, rootDir, parentDir, parentDir.inode.i.no, dirs, o0);
    SameCount(o0, part.opens, 0);
    AsBefore(part.opens);
  }

  /** The path leads to a directory exactly if `there`, and then its number has this low byte. */
  ghost predicate LeadsTo(dirs: map<Word, seq<Entry>>, path: Path, there: bool, cwd: Word) {
    && TreeOk(dirs) && 0 in dirs
    && (there <==> Resolve(dirs, 0, 0, Components(path)).Directory?)
    && (there ==> cwd == Cwd(Resolve(dirs, 0, 0, Components(path)).no))
  }

  lemma FoundDirectory(dirs: map<Word, seq<Entry>>, path: Path, no: int, fileType: Word, p: Word, cwd: Word)
    requires Found(dirs, path, no, fileType, p)
    ensures no >= -1 && (no == -1 ==> fileType != FT_DIRECTORY)
    ensures if fileType == FT_DIRECTORY then LeadsTo(dirs, path, true, no % 0x100) else LeadsTo(dirs, path, false, cwd)
  {
    hide TreeOk, Components, Resolve;
    var r := Resolve(dirs, 0, 0, Components(path));
    assert Reports(r, no, fileType, p);
    assert r.Directory? <==> fileType == FT_DIRECTORY;
    assert r.Directory? ==> Cwd(r.no) == no % 0x100;
  }
}
