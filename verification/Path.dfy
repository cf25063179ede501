/** Paths (v1-src/fileSystem/fs.c:219-304, v1-src/fileSystem/fs.c:678-768): parsing, resolving, and
    the way back from a directory to its path. Directories are given by their slots (Dir.dfy); Walk.dfy
    reads these from a partition. */
module Paths {
  import opened Common
  import opened Disk
  import opened Directories
  import opened Inodes

  const SLASH := 47
  const MAX_PATH_LEN := 512

  type Path = seq<Byte>

  // ---------- components ----------

  /** The path without its leading slashes. */
  function Skipped(p: Path): (r: Path)
    ensures |r| <= |p| && (r == [] || r[0] != SLASH)
  {
    if p != [] && p[0] == SLASH then Skipped(p[1..]) else p
  }

  /** The bytes up to the next slash. */
  function FirstName(p: Path): (r: Path)
    ensures |r| <= |p| && (p != [] && p[0] != SLASH ==> r != [])
    ensures forall k :: 0 <= k < |r| ==> r[k] != SLASH
  {
    if p == [] || p[0] == SLASH then [] else [p[0]] + FirstName(p[1..])
  }

  function AfterName(p: Path): Path { p[|FirstName(p)|..] }

  /** The names between the slashes. */
  function Components(p: Path): seq<Path>
    decreases |p|
  {
    var q := Skipped(p);
    if q == [] then [] else [FirstName(q)] + Components(AfterName(q))
  }

  /** Each component behind a slash. */
  function Joined(names: seq<Path>): Path {
    if names == [] then [] else Joined(names[..|names| - 1]) + [SLASH] + names[|names| - 1]
  }

  /** A name that can be a component. */
  predicate IsName(n: Path) { 0 < |n| <= MAX_NAME && forall k :: 0 <= k < |n| ==> n[k] != SLASH && n[k] != 0 }

  /** A piece between slashes, of any length. */
  predicate IsPiece(n: Path) { n != [] && forall k :: 0 <= k < |n| ==> n[k] != SLASH }

  predicate ShortNames(p: Path) { forall n :: n in Components(p) ==> |n| <= MAX_NAME }

  lemma SkipStep(p: Path)
    ensures if p != [] && p[0] == SLASH then Skipped(p) == Skipped(p[1..]) else Skipped(p) == p
  {
  }

  /** The name so far and what is left of the path from where the name began. */
  ghost predicate NameSoFar(q: Path, name: Path, rest: Path) { q == name + rest
      && FirstName(q) == name + FirstName(rest) }

  lemma NameStep(q: Path, name: Path, rest: Path)
    requires NameSoFar(q, name, rest) && rest != [] && rest[0] != SLASH
    ensures NameSoFar(q, name + [rest[0]], rest[1..])
  {
    assert rest == [rest[0]] + rest[1..];
  }

  lemma NameEnds(q: Path, name: Path, rest: Path)
    requires NameSoFar(q, name, rest) && (rest == [] || rest[0] == SLASH)
    ensures name == FirstName(q) && rest == AfterName(q)
  {
    assert FirstName(q) == name + [] == name;
  }

  /** `path_parse`: a slash is skipped with those after it, the name is copied, and what follows the
      name is left; an empty path gives NULL and no name. */
  method PathParse(pathname: Path) returns (isNull: bool, rest: Path, name: Path)
    ensures isNull <==> pathname == []
    ensures name == FirstName(Skipped(pathname)) && rest == AfterName(Skipped(pathname))
  {
    isNull, rest, name := false, pathname, [];
    if pathname == [] {
      return true, [], [];
    }
    hide FirstName, Skipped, AfterName, NameSoFar;
    SkipStep(rest);
    if rest[0] == SLASH {
      rest := rest[1..];
      SkipStep(rest);
      while rest != [] && rest[0] == SLASH
        invariant Skipped(rest) == Skipped(pathname)
        decreases |rest|
      {
        SkipStep(rest);
        rest := rest[1..];
      }
      SkipStep(rest);
    }
    ghost var q := rest;
    NameBegins(q);
    while rest != [] && rest[0] != SLASH
      invariant NameSoFar(q, name, rest)
      decreases |rest|
    {
      NameStep(q, name, rest);
      name := name + [rest[0]];
      rest := rest[1..];
    }
    NameEnds(q, name, rest);
  }

  lemma NameBegins(q: Path)
    ensures NameSoFar(q, [], q)
  {
    assert [] + q == q && [] + FirstName(q) == FirstName(q);
  }

  /** `path_depth_cnt` counts the components, if there is one: its name buffer is not initialised. */
  method PathDepthCnt(pathname: Path) returns (depth: int)
    requires Components(pathname) != []
    ensures depth == |Components(pathname)|
  {
    var isNull, p, name := PathParse(pathname);
    depth := 0;
    ghost var all := Components(pathname);
    assert all == [name] + Components(p);
    while name != []
      invariant 0 <= depth <= |all| && (name == [] ==> depth == |all| && Components(p) == [])
      invariant name != [] ==> all[depth..] == [name] + Components(p)
      decreases |all| - depth
    {
      depth := depth + 1;
      assert all[depth..] == Components(p);
      isNull, p, name := PathParse(p);
    }
  }

  // ---------- the tree ----------

  /** Where a walk over components ends. */
  datatype Resolution =
    | Missing(parent: Word)                // the directory that lacks the name
    | File(no: Word, parent: Word)
    | Directory(no: Word, parent: Word)

  /** Looking up one component after the other, from directory d, whose parent on the way was given;
      a regular file ends the walk. */
  ghost function Resolve(dirs: map<Word, seq<Entry>>, parent: Word, d: Word, names: seq<Path>): Resolution
    requires TreeOk(dirs) && d in dirs
    decreases |names|
  {
    if names == [] then Directory(d, parent)
    else
      SlotsAreOk(dirs, d);
      var m := Names(dirs[d]);
      if names[0] !in m then Missing(d)
      else if m[names[0]].1 == FT_DIRECTORY then
        TypedEntry(dirs, d, names[0]);
        Resolve(dirs, d, m[names[0]].0, names[1..])
      else File(m[names[0]].0, d)
  }

  /** How many components are looked up: all, or those up to one that is missing or a regular file. */
  ghost function Walked(dirs: map<Word, seq<Entry>>, d: Word, names: seq<Path>): nat
    requires TreeOk(dirs) && d in dirs
    decreases |names|
  {
    if names == [] then 0
    else
      SlotsAreOk(dirs, d);
      var m := Names(dirs[d]);
      if names[0] in m && m[names[0]].1 == FT_DIRECTORY then
        TypedEntry(dirs, d, names[0]);
        1 + Walked(dirs, m[names[0]].0, names[1..])
      else 1
  }

  function ParentOf(dirs: map<Word, seq<Entry>>, d: Word): Word
    requires d in dirs && |dirs[d]| == SLOTS
  {
    dirs[d][1].no
  }

  /** Slot n of the parent is the entry of directory c, and no other slot there has its number. */
  ghost predicate IsEntryOf(xs: seq<Entry>, c: Word, n: int) {
    && 2 <= n < |xs| && xs[n].no == c && xs[n].ftype == FT_DIRECTORY && IsName(CString(xs[n].name)) && !IsDots(xs[n])
    && forall m :: 0 <= m < |xs| && m != n ==> xs[m].no != c
  }

  predicate Sized(dirs: map<Word, seq<Entry>>) { forall d :: d in dirs ==> |dirs[d]| == SLOTS }

  /** The first two slots name the directory and its parent, and directory entries name directories. */
  ghost predicate NodeOk(dirs: map<Word, seq<Entry>>, d: Word)
    requires Sized(dirs) && d in dirs
  {
    && SlotsOk(dirs[d]) && dirs[d][0].no == d && dirs[d][1].no in dirs && (d == 0 ==> dirs[d][1].no == 0)
    && forall n :: 0 <= n < SLOTS && IsLive(dirs[d][n]) && dirs[d][n].ftype == FT_DIRECTORY ==> dirs[d][n].no in dirs
  }

  ghost predicate HasEntry(dirs: map<Word, seq<Entry>>, c: Word)
    requires Sized(dirs) && c in dirs && ParentOf(dirs, c) in dirs
  {
    exists n :: IsEntryOf(dirs[ParentOf(dirs, c)], c, n)
  }

  /** A well-formed tree; every directory but the root has one entry in its parent. */
  ghost predicate TreeOk(dirs: map<Word, seq<Entry>>) {
    && 0 in dirs && Sized(dirs) && (forall d :: d in dirs ==> d < MAX_INODES && NodeOk(dirs, d))
    && forall c :: c in dirs && c != 0 ==> HasEntry(dirs, c)
  }

  /** The parent walk from every directory reaches the root: depth counts its steps. */
  ghost predicate DepthOk(dirs: map<Word, seq<Entry>>, depth: map<Word, nat>)
    requires Sized(dirs)
  {
    && (forall d :: d in dirs ==> d in depth)
    && forall d :: d in dirs && d != 0 ==> ParentOf(dirs, d) in depth && depth[ParentOf(dirs, d)] < depth[d]
  }

  lemma SlotsAreOk(dirs: map<Word, seq<Entry>>, d: Word)
    requires TreeOk(dirs) && d in dirs
    ensures SlotsOk(dirs[d]) && |dirs[d]| == SLOTS && dirs[d][0].no == d && dirs[d][1].no in dirs
  {
    hide SlotsOk, HasEntry;
    assert NodeOk(dirs, d);
  }

  lemma TypedEntry(dirs: map<Word, seq<Entry>>, d: Word, name: Path)
    requires TreeOk(dirs) && d in dirs && SlotsOk(dirs[d]) && name in Names(dirs[d])
             && Names(dirs[d])[name].1 == FT_DIRECTORY
    ensures Names(dirs[d])[name].0 in dirs
  {
    hide SlotsOk, Names, HasEntry;
    assert NodeOk(dirs, d);
    var m := SlotOfName(dirs[d], name);
  }

  /** Directory d has an entry of that name, number and type. */
  ghost predicate HasChild(dirs: map<Word, seq<Entry>>, d: Word, name: Path, no: Word, ftype: Word)
    requires TreeOk(dirs) && d in dirs
  {
    SlotsAreOk(dirs, d);
    name in Names(dirs[d]) && Names(dirs[d])[name] == (no, ftype)
  }

  /** Directories of which each is named by the next component in the one before. */
  ghost predicate IsTrail(dirs: map<Word, seq<Entry>>, names: seq<Path>, ds: seq<Word>)
    requires TreeOk(dirs)
  {
    && 0 < |ds| <= |names| + 1 && (forall k :: 0 <= k < |ds| ==> ds[k] in dirs)
    && forall k :: 0 <= k < |ds| - 1 ==> HasChild(dirs, ds[k], names[k], ds[k + 1], FT_DIRECTORY)
  }

  /** The walk passes the one trail there is: it ends in a directory when the trail has used up all
      components, at a file when the last directory has another entry of the next name, and is missing
      exactly when that directory has none; the last component looked up is the one behind the trail. */
  lemma {:induction false} ResolveIsTrail(dirs: map<Word, seq<Entry>>, parent: Word, d: Word, names: seq<Path>)
    returns (ds: seq<Word>)
    requires TreeOk(dirs) && d in dirs
    ensures IsTrail(dirs, names, ds) && ds[0] == d
    ensures var k := |ds| - 1;
            && Walked(dirs, d, names) == (if k < |names| then k + 1 else |names|)
            && match Resolve(dirs, parent, d, names)
               case Directory(no, p) => k == |names| && no == ds[k] && p == if k == 0 then parent else ds[k - 1]
               case File(no, p) =>
                 && k < |names| && p == ds[k]
                 && exists ftype :: ftype != FT_DIRECTORY && HasChild(dirs, ds[k], names[k], no, ftype)
               case Missing(p) =>
                 && k < |names| && p == ds[k] && forall no, ftype :: !HasChild(dirs, ds[k], names[k], no, ftype)
    decreases |names|
  {
    hide TreeOk, SlotsOk, Names;
    ds := [d];
    if names != [] {
      SlotsAreOk(dirs, d);
      var m := Names(dirs[d]);
      if names[0] in m {
        assert HasChild(dirs, d, names[0], m[names[0]].0, m[names[0]].1);
        if m[names[0]].1 == FT_DIRECTORY {
          TypedEntry(dirs, d, names[0]);
          var rest := ResolveIsTrail(dirs, d, m[names[0]].0, names[1..]);
          ds := [d] + rest;
          forall k | 0 <= k < |ds| - 1 ensures HasChild(dirs, ds[k], names[k], ds[k + 1], FT_DIRECTORY) {
            if k > 0 {
              assert HasChild(dirs, rest[k - 1], names[1..][k - 1], rest[k], FT_DIRECTORY);
            }
          }
        }
      }
    }
  }

  // ---------- joined names ----------

  lemma {:induction false} JoinedFront(a: Path, names: seq<Path>)
    ensures Joined([a] + names) == [SLASH] + a + Joined(names)
  {
    if names == [] {
      assert [a] + names == [a];
      assert Joined([a]) == Joined([]) + [SLASH] + a;
    } else {
      var last := |names| - 1;
      var j := Joined(names[..last]);
      JoinedFront(a, names[..last]);
      assert ([a] + names)[..last + 1] == [a] + names[..last];
      assert [SLASH] + a + j + [SLASH] + names[last] == [SLASH] + a + (j + [SLASH] + names[last]);
    }
  }

  lemma {:induction false} JoinedMore(names: seq<Path>, k: nat)
    requires k <= |names|
    ensures |Joined(names[..k])| <= |Joined(names)|
  {
    if k < |names| {
      JoinedMore(names[..|names| - 1], k);
      assert names[..|names| - 1][..k] == names[..k];
    } else {
      assert names[..k] == names;
    }
  }

  /** The components behind their slashes are no longer than the path. */
  lemma {:induction false} JoinedFits(p: Path)
    requires p != [] ==> p[0] == SLASH
    ensures |Joined(Components(p))| <= |p|
    decreases |p|
  {
    var q := Skipped(p);
    if q != [] {
      SkippedShorter(p);
      var rest := AfterName(q);
      AfterNameStarts(q);
      JoinedFits(rest);
      JoinedFront(FirstName(q), Components(rest));
    }
  }

  lemma SkippedShorter(p: Path)
    requires p != [] && p[0] == SLASH
    ensures |Skipped(p)| < |p|
  {
  }

  lemma {:induction false} AfterNameStarts(q: Path)
    ensures AfterName(q) == [] || AfterName(q)[0] == SLASH
  {
    if q != [] && q[0] != SLASH {
      AfterNameStarts(q[1..]);
    }
  }

  /** A name and what follows it. */
  lemma {:induction false} NameThen(n: Path, rest: Path)
    requires (forall k :: 0 <= k < |n| ==> n[k] != SLASH) && (rest == [] || rest[0] == SLASH)
    ensures FirstName(n + rest) == n && AfterName(n + rest) == rest
  {
    if n != [] {
      NameThen(n[1..], rest);
      assert n + rest == [n[0]] + (n[1..] + rest);
      assert (n + rest)[1..] == n[1..] + rest;
      assert [n[0]] + n[1..] == n;
    } else {
      assert n + rest == rest;
    }
  }

  /** Splitting joined names gives them back. */
  lemma {:induction false} SplitJoined(names: seq<Path>)
    requires forall k :: 0 <= k < |names| ==> IsPiece(names[k])
    ensures Components(Joined(names)) == names
  {
    if names != [] {
      var n, rest := names[0], names[1..];
      assert names == [n] + rest;
      JoinedFront(n, rest);
      SplitJoined(rest);
      var p := [SLASH] + n + Joined(rest);
      assert p[1..] == n + Joined(rest);
      assert Skipped(p) == n + Joined(rest);
      JoinedStarts(rest);
      NameThen(n, Joined(rest));
    }
  }

  lemma {:induction false} ComponentsArePieces(p: Path)
    ensures forall k :: 0 <= k < |Components(p)| ==> IsPiece(Components(p)[k])
    decreases |p|
  {
    var q := Skipped(p);
    if q != [] {
      ComponentsArePieces(AfterName(q));
    }
  }

  lemma JoinedStarts(names: seq<Path>)
    ensures Joined(names) == [] || Joined(names)[0] == SLASH
  {
    if names != [] {
      assert names == [names[0]] + names[1..];
      JoinedFront(names[0], names[1..]);
    }
  }

  // ---------- search_file ----------

  const FT_UNKNOWN := 0
  const FT_REGULAR := 1

  /** Every live entry is a file or a directory. */
  ghost predicate TypesOk(dirs: map<Word, seq<Entry>>) {
    forall d, n :: d in dirs && 0 <= n < |dirs[d]| && IsLive(dirs[d][n]) ==>
        dirs[d][n].ftype == FT_REGULAR || dirs[d][n].ftype == FT_DIRECTORY
  }

  /** What search_file returns and records for a resolution. */
  predicate Reports(r: Resolution, no: int, fileType: Word, parentDir: Word) {
    match r
    case Missing(p) => no == -1 && fileType == FT_UNKNOWN && parentDir == p
    case File(n, p) => no == n && fileType == FT_REGULAR && parentDir == p
    case Directory(n, p) => no == n && fileType == FT_DIRECTORY && parentDir == p
  }

  /** The root's "." and ".." are the root. */
  lemma RootDots(dirs: map<Word, seq<Entry>>, name: Path)
    requires TreeOk(dirs) && (name == Dot() || name == DotDot())
    ensures Resolve(dirs, 0, 0, [name]) == Directory(0, 0)
  {
    hide SlotsOk, Names, TreeOk, CString;
    RootIsThere(dirs);
    SlotsAreOk(dirs, 0);
    RootSlots(dirs);
    NameOfSlot(dirs[0], if name == Dot() then 0 else 1);
    ResolveStep(dirs, 0, 0, [name]);
    hide Resolve;
    assert [name][1..] == [];
    ResolveEnd(dirs, 0, 0);
  }

  lemma ResolveEnd(dirs: map<Word, seq<Entry>>, parent: Word, d: Word)
    requires TreeOk(dirs) && d in dirs
    ensures Resolve(dirs, parent, d, []) == Directory(d, parent)
  {
  }

  /** One step down. */
  lemma ResolveStep(dirs: map<Word, seq<Entry>>, parent: Word, d: Word, names: seq<Path>)
    requires TreeOk(dirs) && d in dirs && names != [] && SlotsOk(dirs[d])
    requires names[0] in Names(dirs[d]) && Names(dirs[d])[names[0]].1 == FT_DIRECTORY
    ensures Names(dirs[d])[names[0]].0 in dirs
    ensures Resolve(dirs, parent, d, names) == Resolve(dirs, d, Names(dirs[d])[names[0]].0, names[1..])
  {
    hide SlotsOk, Names, TreeOk;
    TypedEntry(dirs, d, names[0]);
  }

  lemma RootSlots(dirs: map<Word, seq<Entry>>)
    requires TreeOk(dirs)
    ensures |dirs[0]| == SLOTS && SlotsOk(dirs[0]) && IsLive(dirs[0][0]) && IsLive(dirs[0][1]) && dirs[0][0].no == 0
            && dirs[0][1].no == 0
    ensures CString(dirs[0][0].name) == Dot() && CString(dirs[0][1].name) == DotDot()
            && dirs[0][0].ftype == FT_DIRECTORY && dirs[0][1].ftype == FT_DIRECTORY
  {
    hide HasEntry;
    assert NodeOk(dirs, 0);
  }

  lemma EntryType(dirs: map<Word, seq<Entry>>, d: Word, name: Path)
    requires TreeOk(dirs) && TypesOk(dirs) && d in dirs && SlotsOk(dirs[d]) && name in Names(dirs[d])
    ensures Names(dirs[d])[name].1 == FT_REGULAR || Names(dirs[d])[name].1 == FT_DIRECTORY
  {
    hide SlotsOk, Names, HasEntry, NodeOk;
    var m := SlotOfName(dirs[d], name);
  }

  lemma SpecialComponents()
    ensures Components([SLASH]) == [] && Components([SLASH, 46]) == [Dot()] && Components([SLASH, 46, 46]) == [DotDot()]
  {
    SplitJoined([]);
    assert Joined([]) == [];
    assert Skipped([SLASH]) == Skipped([]);
    JoinedFront(Dot(), []);
    JoinedFront(DotDot(), []);
    assert [Dot()] + [] == [Dot()] && [DotDot()] + [] == [DotDot()];
    assert [SLASH] + Dot() + [] == [SLASH, 46] && [SLASH] + DotDot() + [] == [SLASH, 46, 46];
    SplitJoined([Dot()]);
    SplitJoined([DotDot()]);
  }

  /** The three spellings of the root that the source compares with first. */
  predicate IsRootPath(p: Path) { p == [SLASH] || p == [SLASH, 46] || p == [SLASH, 46, 46] }

  lemma RootIsThere(dirs: map<Word, seq<Entry>>)
    requires TreeOk(dirs)
    ensures 0 in dirs
  {
  }

  lemma NothingJoined(all: seq<Path>)
    ensures Joined(all[..0]) == []
  {
  }

  lemma NextJoined(all: seq<Path>, k: nat)
    requires k < |all|
    ensures Joined(all[..k + 1]) == Joined(all[..k]) + [SLASH] + all[k]
  {
    assert all[..k + 1][..k] == all[..k];
  }

  lemma ResolveMissing(dirs: map<Word, seq<Entry>>, parent: Word, d: Word, names: seq<Path>)
    requires TreeOk(dirs) && d in dirs && names != [] && SlotsOk(dirs[d]) && names[0] !in Names(dirs[d])
    ensures Resolve(dirs, parent, d, names) == Missing(d)
  {
    hide SlotsOk, Names, TreeOk;
  }

  lemma ResolveFile(dirs: map<Word, seq<Entry>>, parent: Word, d: Word, names: seq<Path>)
    requires TreeOk(dirs) && d in dirs && names != [] && SlotsOk(dirs[d]) && names[0] in Names(dirs[d])
             && Names(dirs[d])[names[0]].1 != FT_DIRECTORY
    ensures Resolve(dirs, parent, d, names) == File(Names(dirs[d])[names[0]].0, d)
  {
    hide SlotsOk, Names, TreeOk;
  }

  lemma WalkedStep(dirs: map<Word, seq<Entry>>, d: Word, names: seq<Path>)
    requires TreeOk(dirs) && d in dirs && names != [] && SlotsOk(dirs[d])
    requires names[0] in Names(dirs[d]) && Names(dirs[d])[names[0]].1 == FT_DIRECTORY
    ensures Names(dirs[d])[names[0]].0 in dirs
    ensures Walked(dirs, d, names) == 1 + Walked(dirs, Names(dirs[d])[names[0]].0, names[1..])
  {
    hide SlotsOk, Names, TreeOk;
    TypedEntry(dirs, d, names[0]);
  }

  lemma WalkedStop(dirs: map<Word, seq<Entry>>, d: Word, names: seq<Path>)
    requires TreeOk(dirs) && d in dirs
    requires names == []
             || (SlotsOk(dirs[d]) && (names[0] !in Names(dirs[d]) || Names(dirs[d])[names[0]].1 != FT_DIRECTORY))
    ensures Walked(dirs, d, names) == if names == [] then 0 else 1
  {
    hide SlotsOk, Names, TreeOk;
  }

  /** Everything is looked up when the walk ends in a directory. */
  lemma {:induction false} WalkedAll(dirs: map<Word, seq<Entry>>, parent: Word, d: Word, names: seq<Path>)
    requires TreeOk(dirs) && d in dirs
    ensures Walked(dirs, d, names) <= |names|
    ensures Resolve(dirs, parent, d, names).Directory? ==> Walked(dirs, d, names) == |names|
    ensures names != [] ==> Walked(dirs, d, names) > 0
    decreases |names|
  {
    hide SlotsOk, Names, TreeOk;
    if names != [] {
      SlotsAreOk(dirs, d);
      if names[0] in Names(dirs[d]) && Names(dirs[d])[names[0]].1 == FT_DIRECTORY {
        TypedEntry(dirs, d, names[0]);
        WalkedAll(dirs, d, Names(dirs[d])[names[0]].0, names[1..]);
      }
    }
  }

  /** The path that was searched splits into the components that were looked up: comparing its depth
      with that of the whole path, as the callers of search_file do, tells whether all of them were. */
  lemma SearchedDepth(pathname: Path, k: nat)
    requires k <= |Components(pathname)|
    ensures Components(Joined(Components(pathname)[..k])) == Components(pathname)[..k]
  {
    ComponentsArePieces(pathname);
    SplitJoined(Components(pathname)[..k]);
  }

  // ---------- sys_getcwd ----------

  /** The slot of a directory in its parent. */
  ghost function EntrySlot(dirs: map<Word, seq<Entry>>, c: Word): (n: int)
    requires TreeOk(dirs) && c in dirs && c != 0
    ensures ParentOf(dirs, c) in dirs && IsEntryOf(dirs[ParentOf(dirs, c)], c, n)
  {
    EntryExists(dirs, c);
    var n :| IsEntryOf(dirs[ParentOf(dirs, c)], c, n);
    n
  }

  lemma EntryExists(dirs: map<Word, seq<Entry>>, c: Word)
    requires TreeOk(dirs) && c in dirs && c != 0
    ensures ParentOf(dirs, c) in dirs && exists n :: IsEntryOf(dirs[ParentOf(dirs, c)], c, n)
  {
    hide SlotsOk, IsEntryOf;
    assert NodeOk(dirs, c) && HasEntry(dirs, c);
  }

  /** The names from the root down to a directory. */
  ghost function NamesTo(dirs: map<Word, seq<Entry>>, depth: map<Word, nat>, c: Word): seq<Path>
    requires TreeOk(dirs) && DepthOk(dirs, depth) && c in dirs
    decreases depth[c]
  {
    if c == 0 then []
    else
      SlotsAreOk(dirs, c);
      var p := ParentOf(dirs, c);
      var n := EntrySlot(dirs, c);
      NamesTo(dirs, depth, p) + [CString(dirs[p][n].name)]
  }

  lemma {:induction false} NamesAreNames(dirs: map<Word, seq<Entry>>, depth: map<Word, nat>, c: Word)
    requires TreeOk(dirs) && DepthOk(dirs, depth) && c in dirs
    ensures forall k :: 0 <= k < |NamesTo(dirs, depth, c)| ==> IsName(NamesTo(dirs, depth, c)[k])
    decreases depth[c]
  {
    hide TreeOk, SlotsOk, IsName, CString;
    if c != 0 {
      SlotsAreOk(dirs, c);
      NamesAreNames(dirs, depth, ParentOf(dirs, c));
    }
  }

  /** What comes after a walk that ends in a directory. */
  lemma {:induction false} ResolveOn(dirs: map<Word, seq<Entry>>, parent: Word, d: Word, a: seq<Path>, b: seq<Path>,
      x: Word, px: Word)
    requires TreeOk(dirs) && d in dirs && Resolve(dirs, parent, d, a) == Directory(x, px)
    ensures x in dirs && Resolve(dirs, parent, d, a + b) == Resolve(dirs, px, x, b)
    decreases |a|
  {
    hide SlotsOk, Names, TreeOk;
    if a == [] {
      assert a + b == b;
    } else {
      SlotsAreOk(dirs, d);
      assert (a + b)[0] == a[0] && (a + b)[1..] == a[1..] + b;
      assert a[0] in Names(dirs[d]) && Names(dirs[d])[a[0]].1 == FT_DIRECTORY;
      ResolveStep(dirs, parent, d, a);
      ResolveStep(dirs, parent, d, a + b);
      ResolveOn(dirs, d, Names(dirs[d])[a[0]].0, a[1..], b, x, px);
    }
  }

  /** The names down to a directory lead to it. */
  lemma {:induction false} NamesLeadThere(dirs: map<Word, seq<Entry>>, depth: map<Word, nat>, c: Word)
    requires TreeOk(dirs) && DepthOk(dirs, depth) && c in dirs
    ensures Resolve(dirs, 0, 0, NamesTo(dirs, depth, c)) == Directory(c, if c == 0 then 0 else ParentOf(dirs, c))
    decreases depth[c]
  {
    hide TreeOk, SlotsOk, CString, Resolve, Names;
    RootIsThere(dirs);
    if c == 0 {
      ResolveEnd(dirs, 0, 0);
    } else {
      SlotsAreOk(dirs, c);
      var p, n := ParentOf(dirs, c), EntrySlot(dirs, c);
      NamesLeadThere(dirs, depth, p);
      var name := CString(dirs[p][n].name);
      SlotsAreOk(dirs, p);
      LastStep(dirs, p, n, c, if p == 0 then 0 else ParentOf(dirs, p));
      ResolveOn(dirs, 0, 0, NamesTo(dirs, depth, p), [name], p, if p == 0 then 0 else ParentOf(dirs, p));
    }
  }

  lemma LastStep(dirs: map<Word, seq<Entry>>, p: Word, n: int, c: Word, pp: Word)
    requires TreeOk(dirs) && p in dirs && IsEntryOf(dirs[p], c, n) && SlotsOk(dirs[p])
    ensures c in dirs && Resolve(dirs, pp, p, [CString(dirs[p][n].name)]) == Directory(c, p)
  {
    hide TreeOk, SlotsOk, CString, Resolve, Names, IsName, IsDots;
    var name: Path := CString(dirs[p][n].name);
    SlotsLength(dirs[p]);
    assert IsLive(dirs[p][n]);
    NameOfSlot(dirs[p], n);
    ResolveStep(dirs, pp, p, [name]);
    var none: seq<Path> := [];
    assert [name][1..] == none;
    ResolveEnd(dirs, p, c);
  }

  /** The path of a directory. */
  ghost function PathOf(dirs: map<Word, seq<Entry>>, depth: map<Word, nat>, c: Word): Path
    requires TreeOk(dirs) && DepthOk(dirs, depth) && c in dirs
  {
    if c == 0 then [SLASH] else Joined(NamesTo(dirs, depth, c))
  }

  /** Resolving the path of a directory gives back the directory, so search_file undoes sys_getcwd. */
  lemma GetcwdIsInverse(dirs: map<Word, seq<Entry>>, depth: map<Word, nat>, c: Word)
    requires TreeOk(dirs) && DepthOk(dirs, depth) && c in dirs
    ensures Resolve(dirs, 0, 0, Components(PathOf(dirs, depth, c)))
            == Directory(c, if c == 0 then 0 else ParentOf(dirs, c))
  {
    hide TreeOk, SlotsOk, Resolve, Joined, Components;
    NamesLeadThere(dirs, depth, c);
    if c == 0 {
      SpecialComponents();
    } else {
      NamesAreNames(dirs, depth, c);
      SplitJoined(NamesTo(dirs, depth, c));
    }
  }

  /** `sys_chdir` keeps only the low byte of the directory's number. */
  function Cwd(d: Word): Word { d % 0x100 }

  /** After a chdir to d the path from getcwd leads back to d exactly when d is below 256. */
  lemma ChdirGetcwdIff(dirs: map<Word, seq<Entry>>, depth: map<Word, nat>, d: Word)
    requires TreeOk(dirs) && DepthOk(dirs, depth) && d in dirs
    ensures (Cwd(d) in dirs && Resolve(dirs, 0, 0, Components(PathOf(dirs, depth, Cwd(d)))).Directory?
              && Resolve(dirs, 0, 0, Components(PathOf(dirs, depth, Cwd(d)))).no == d) <==> d < 0x100
  {
    hide TreeOk, DepthOk, PathOf, Resolve, Components;
    if Cwd(d) in dirs {
      GetcwdIsInverse(dirs, depth, Cwd(d));
    }
  }

  // ---------- turning the path round ----------

  function Reversed(xs: seq<Path>): (r: seq<Path>)
    ensures |r| == |xs|
  {
    if xs == [] then [] else Reversed(xs[1..]) + [xs[0]]
  }

  lemma {:induction false} ReversedMore(xs: seq<Path>, x: Path)
    ensures Reversed(xs + [x]) == [x] + Reversed(xs)
  {
    if xs == [] {
      assert xs + [x] == [x];
    } else {
      ReversedMore(xs[1..], x);
      assert (xs + [x])[1..] == xs[1..] + [x];
    }
  }

  /** `strrchr` for a slash. */
  method LastSlash(s: Path) returns (last: int)
    ensures -1 <= last < |s| && (last >= 0 ==> s[last] == SLASH) && forall k :: last < k < |s| ==> s[k] != SLASH
  {
    last := -1;
    var k := 0;
    while k < |s|
      invariant 0 <= k <= |s| && -1 <= last < k && (last >= 0 ==> s[last] == SLASH)
                && forall j :: last < j < k ==> s[j] != SLASH
    {
      if s[k] == SLASH {
        last := k;
      }
      k := k + 1;
    }
  }

  predicate NoSlash(n: Path) { forall k :: 0 <= k < |n| ==> n[k] != SLASH }

  /** The last piece of joined names. */
  lemma LastPiece(rs: seq<Path>, last: int)
    requires rs != [] && NoSlash(rs[|rs| - 1])
    requires -1 <= last < |Joined(rs)| && (last >= 0 ==> Joined(rs)[last] == SLASH)
             && forall k :: last < k < |Joined(rs)| ==> Joined(rs)[k] != SLASH
    ensures last >= 0 && Joined(rs)[..last] == Joined(rs[..|rs| - 1]) && Joined(rs)[last..] == [SLASH] + rs[|rs| - 1]
  {
    var a, n := Joined(rs[..|rs| - 1]), rs[|rs| - 1];
    var s := a + [SLASH] + n;
    assert s[|a|] == SLASH;
    forall k | |a| < k < |s| ensures s[k] != SLASH { assert s[k] == n[k - |a| - 1]; }
  }

  lemma ReversedNothing()
    ensures Reversed([]) == [] && Joined([]) == []
  {
  }

  lemma JoinedOneMore(rs: seq<Path>, name: Path)
    ensures Joined(rs + [name]) == Joined(rs) + [SLASH] + name
  {
    assert (rs + [name])[..|rs|] == rs;
  }

  lemma ParentEntry(dirs: map<Word, seq<Entry>>, c: Word)
    requires TreeOk(dirs) && c in dirs && |dirs[c]| == SLOTS
    ensures dirs[c][1].no < MAX_INODES && dirs[c][1].ftype == FT_DIRECTORY
  {
    hide HasEntry;
    assert NodeOk(dirs, c);
  }

  lemma {:induction false} ReversedNames(rs: seq<Path>)
    requires forall k :: 0 <= k < |rs| ==> IsName(Reversed(rs)[k])
    ensures forall k :: 0 <= k < |rs| ==> IsName(rs[k])
  {
    hide IsName;
    if rs != [] {
      var ys := Reversed(rs[1..]);
      assert Reversed(rs)[|rs| - 1] == rs[0];
      forall k | 0 <= k < |rs| - 1 ensures IsName(ys[k]) { assert Reversed(rs)[k] == ys[k]; }
      ReversedNames(rs[1..]);
      forall k | 0 <= k < |rs| ensures IsName(rs[k]) { assert k > 0 ==> rs[1..][k - 1] == rs[k]; }
    }
  }

  /** The pieces of the reversed path, last first. */
  method ReverseCopy(reversePath: Path, ghost rs: seq<Path>) returns (buf: Path)
    requires reversePath == Joined(rs) && forall k :: 0 <= k < |Reversed(rs)| ==> IsName(Reversed(rs)[k])
    ensures buf == Joined(Reversed(rs))
  {
    hide Joined, Reversed, NoSlash, IsName;
    ReversedNames(rs);
    NamesHaveNoSlash(rs);
    buf := [];
    var full := reversePath;
    ghost var k := |rs|;
    assert rs[..k] == rs && rs[k..] == [];
    ReversedNothing();
    var last := LastSlash(full);
    while last >= 0
      invariant 0 <= k <= |rs| && full == Joined(rs[..k]) && buf == Joined(Reversed(rs[k..]))
      invariant -1 <= last < |full| && (last >= 0 ==> full[last] == SLASH)
                && forall j :: last < j < |full| ==> full[j] != SLASH
      decreases k
    {
      assert rs[..0] == [] && k > 0;
      assert rs[..k][..k - 1] == rs[..k - 1] && rs[..k][k - 1] == rs[k - 1];
      LastPiece(rs[..k], last);
      buf := buf + full[last..];
      full := full[..last];
      ReversedStep(rs, k);
      JoinedOneMore(Reversed(rs[k..]), rs[k - 1]);
      k := k - 1;
      last := LastSlash(full);
    }
    if k > 0 { HasSlash(rs, k); }
    assert rs[0..] == rs;
  }

  lemma NamesHaveNoSlash(rs: seq<Path>)
    requires forall k :: 0 <= k < |rs| ==> IsName(rs[k])
    ensures forall k :: 0 <= k < |rs| ==> NoSlash(rs[k])
  {
  }

  lemma ReversedStep(rs: seq<Path>, k: nat)
    requires 0 < k <= |rs|
    ensures Reversed(rs[k - 1..]) == Reversed(rs[k..]) + [rs[k - 1]]
  {
    assert rs[k - 1..][1..] == rs[k..];
  }

  lemma HasSlash(rs: seq<Path>, k: nat)
    requires 0 < k <= |rs|
    ensures exists j :: 0 <= j < |Joined(rs[..k])| && Joined(rs[..k])[j] == SLASH
  {
    NextJoined(rs, k - 1);
    assert Joined(rs[..k])[|Joined(rs[..k - 1])|] == SLASH;
  }

  /** Turning names round keeps the length of what they join to. */
  lemma {:induction false} ReversedLength(rs: seq<Path>)
    ensures |Joined(Reversed(rs))| == |Joined(rs)|
  {
    if rs != [] {
      ReversedLength(rs[1..]);
      JoinedOneMore(Reversed(rs[1..]), rs[0]);
      assert rs == [rs[0]] + rs[1..];
      JoinedFront(rs[0], rs[1..]);
    }
  }

  /** The path of a directory is one that search_file takes. */
  lemma PathIsSearchable(dirs: map<Word, seq<Entry>>, depth: map<Word, nat>, c: Word)
    requires TreeOk(dirs) && DepthOk(dirs, depth) && c in dirs
    ensures var p := PathOf(dirs, depth, c);
            p != [] && p[0] == SLASH && ShortNames(p) && (p == [SLASH] || Components(p) != [])
  {
    hide TreeOk, DepthOk, Joined, IsEntryOf;
    if c == 0 {
      SpecialComponents();
    } else {
      var names := NamesTo(dirs, depth, c);
      NamesAreNames(dirs, depth, c);
      SplitJoined(names);
      NamesNotEmpty(dirs, depth, c);
      JoinedNotEmpty(names);
      JoinedStarts(names);
    }
  }

  lemma NamesNotEmpty(dirs: map<Word, seq<Entry>>, depth: map<Word, nat>, c: Word)
    requires TreeOk(dirs) && DepthOk(dirs, depth) && c in dirs && c != 0
    ensures NamesTo(dirs, depth, c) != []
  {
  }

  lemma JoinedNotEmpty(names: seq<Path>)
    requires names != []
    ensures Joined(names) != []
  {
  }
}
