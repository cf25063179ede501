/** Directory entries (v1-src/fileSystem/direct.c, v1-src/fileSystem/direct.h): a directory as its 252
    slots, in the order in which the source scans them, and as a finite map from names. */
module Directories {
  import opened Common
  import opened Disk
  import opened Inodes

  const ENTRY_SIZE := 24
  const PER_SECTOR := 21
  const SLOTS := 252           // 12 direct blocks of 21 slots
  const FT_DIRECTORY := 2
  const MAX_NAME := 15         // the longest name whose terminator fits the 16 bytes

  /** `struct dir_entry`; a file type of 0 marks a free slot. */
  datatype Entry = Entry(name: seq<Byte>, no: Word, ftype: Word)

  predicate IsEntry(e: Entry) { |e.name| == 16 }

  function ZeroEntry(): Entry { Entry(Zeros(16), 0, 0) }

  predicate IsLive(e: Entry) { e.ftype != 0 }

  /** The C string in a buffer. */
  function CString(b: seq<Byte>): seq<Byte> {
    if b == [] || b[0] == 0 then [] else [b[0]] + CString(b[1..])
  }

  function Dot(): seq<Byte> { [46] }

  function DotDot(): seq<Byte> { [46, 46] }

  predicate IsDots(e: Entry) { CString(e.name) == Dot() || CString(e.name) == DotDot() }

  // ---------- entries in a sector ----------

  function EncodeEntry(e: Entry): (r: seq<Byte>)
    requires IsEntry(e)
    ensures |r| == ENTRY_SIZE
  {
    e.name + Bytes32(e.no) + Bytes32(e.ftype)
  }

  function EntryAt(s: Sector, k: int): (e: Entry)
    requires 0 <= k < PER_SECTOR
    ensures IsEntry(e)
  {
    Entry(s[ENTRY_SIZE * k..ENTRY_SIZE * k + 16], Word32(s, ENTRY_SIZE * k + 16), Word32(s, ENTRY_SIZE * k + 20))
  }

  /** The 21 slots of a sector. */
  function SectorSlots(s: Sector): (r: seq<Entry>)
    ensures |r| == PER_SECTOR && forall k :: 0 <= k < PER_SECTOR ==> IsEntry(r[k])
  {
    seq(PER_SECTOR, k requires 0 <= k < PER_SECTOR => EntryAt(s, k))
  }

  /** Where an entry's fields lie: 16 bytes of name, then the inode number and the file type as words, the
      low byte first. */
  lemma EntryLayout(s: Sector, k: int)
    requires 0 <= k < PER_SECTOR
    ensures var e, at := EntryAt(s, k), 24 * k;
            && (forall j :: 0 <= j < 16 ==> e.name[j] == s[at + j])
            && e.no == FourBytes(s[at + 16], s[at + 17], s[at + 18], s[at + 19])
            && e.ftype == FourBytes(s[at + 20], s[at + 21], s[at + 22], s[at + 23])
  {
    assert forall j :: 0 <= j < 16 ==> EntryAt(s, k).name[j] == s[24 * k + j];
  }

  /** An entry copied into a slot is there, and the other slots are as before. */
  lemma PutEntry(s: Sector, k: int, e: Entry)
    requires 0 <= k < PER_SECTOR && IsEntry(e)
    ensures SectorSlots(Patched(s, ENTRY_SIZE * k, EncodeEntry(e))) == SectorSlots(s)[k := e]
  {
    var at, d := ENTRY_SIZE * k, EncodeEntry(e);
    var s' := Patched(s, at, d);
    hide Word32, Bytes32;
    assert EntryAt(s', k) == e by {
      assert s'[at..at + 16] == e.name;
      assert s'[at + 16..at + 20] == Bytes32(e.no);
      assert s'[at + 20..at + 24] == Bytes32(e.ftype);
      WordRoundTrip(e.no, s', at + 16);
      WordRoundTrip(e.ftype, s', at + 20);
    }
    forall j | 0 <= j < PER_SECTOR && j != k ensures EntryAt(s', j) == EntryAt(s, j) {
      OtherEntry(s, k, d, j);
    }
  }

  lemma OtherEntry(s: Sector, k: int, d: seq<Byte>, j: int)
    requires 0 <= k < PER_SECTOR && |d| == ENTRY_SIZE && 0 <= j < PER_SECTOR && j != k
    ensures EntryAt(Patched(s, ENTRY_SIZE * k, d), j) == EntryAt(s, j)
  {
    var s' := Patched(s, ENTRY_SIZE * k, d);
    assert s'[ENTRY_SIZE * j..ENTRY_SIZE * j + 16] == s[ENTRY_SIZE * j..ENTRY_SIZE * j + 16];
  }

  /** Zeros are free slots. */
  lemma ZeroSlots()
    ensures EncodeEntry(ZeroEntry()) == Zeros(ENTRY_SIZE)
    ensures SectorSlots(Zeros(SECTOR_SIZE)) == seq(PER_SECTOR, k => ZeroEntry())
    ensures CString(ZeroEntry().name) == []
  {
    forall k | 0 <= k < PER_SECTOR ensures EntryAt(Zeros(SECTOR_SIZE), k) == ZeroEntry() {
      assert Zeros(SECTOR_SIZE)[ENTRY_SIZE * k..ENTRY_SIZE * k + 16] == Zeros(16);
    }
  }

  // ---------- a directory as its slots ----------

  /** The live entries, in slot order. */
  function Live(xs: seq<Entry>): seq<Entry> {
    if xs == [] then [] else Live(xs[..|xs| - 1]) + if IsLive(xs[|xs| - 1]) then [xs[|xs| - 1]] else []
  }

  /** Slots of a well-formed directory: free ones are all zero, live ones have a name of at most 15
      bytes, no name occurs twice, and "." and ".." have the first two. */
  ghost predicate SlotsOk(xs: seq<Entry>) {
    && |xs| == SLOTS
    && (forall n :: 0 <= n < SLOTS ==> IsEntry(xs[n]) && (IsLive(xs[n]) || xs[n] == ZeroEntry()))
    && (forall n :: 0 <= n < SLOTS && IsLive(xs[n]) ==> 0 < |CString(xs[n].name)| <= MAX_NAME)
    && (forall n, m :: 0 <= n < m < SLOTS && IsLive(xs[n]) && IsLive(xs[m]) ==>
        CString(xs[n].name) != CString(xs[m].name))
    && IsLive(xs[0]) && CString(xs[0].name) == Dot() && xs[0].ftype == FT_DIRECTORY
    && IsLive(xs[1]) && CString(xs[1].name) == DotDot() && xs[1].ftype == FT_DIRECTORY
  }

  /** The first slot with the name, as search_dir_entry looks for it. */
  ghost predicate IsFirstNamed(xs: seq<Entry>, name: seq<Byte>, n: int) {
    0 <= n < |xs| && CString(xs[n].name) == name && forall m :: 0 <= m < n ==> CString(xs[m].name) != name
  }

  ghost predicate IsMissing(xs: seq<Entry>, name: seq<Byte>) {
    forall n :: 0 <= n < |xs| ==> CString(xs[n].name) != name
  }

  /** The directory as a map: what a name stands for. */
  ghost function Names(xs: seq<Entry>): map<seq<Byte>, (Word, Word)>
    requires SlotsOk(xs)
  {
    map n | 0 <= n < SLOTS && IsLive(xs[n]) :: CString(xs[n].name) := (xs[n].no, xs[n].ftype)
  }

  /** Searching finds exactly what the map holds. */
  lemma SearchIsLookup(xs: seq<Entry>, name: seq<Byte>, n: int)
    requires SlotsOk(xs) && name != []
    ensures IsMissing(xs, name) <==> name !in Names(xs)
    ensures IsFirstNamed(xs, name, n) ==>
            && name in Names(xs) && Names(xs)[name] == (xs[n].no, xs[n].ftype)
            && IsLive(xs[n])
  {
    ZeroSlots();
    if IsFirstNamed(xs, name, n) {
      assert xs[n] != ZeroEntry();
    }
    if !IsMissing(xs, name) {
      var m :| 0 <= m < |xs| && CString(xs[m].name) == name;
      assert xs[m] != ZeroEntry();
    }
  }

  /** The first free slot, where sync_dir_entry puts an entry. */
  ghost predicate IsFirstFree(xs: seq<Entry>, n: int) {
    0 <= n < |xs| && !IsLive(xs[n]) && forall m :: 0 <= m < n ==> IsLive(xs[m])
  }

  /** An entry that may be added. */
  ghost predicate IsNewEntry(xs: seq<Entry>, e: Entry) {
    IsEntry(e) && IsLive(e) && 0 < |CString(e.name)| <= MAX_NAME && IsMissing(xs, CString(e.name))
  }

  /** Inserting adds the name and changes no other; "." and ".." stay. */
  lemma InsertInMap(xs: seq<Entry>, n: int, e: Entry)
    requires SlotsOk(xs) && IsFirstFree(xs, n) && IsNewEntry(xs, e)
    ensures SlotsOk(xs[n := e]) && Names(xs[n := e]) == Names(xs)[CString(e.name) := (e.no, e.ftype)]
    ensures |Live(xs[n := e])| == |Live(xs)| + 1
  {
    var ys := xs[n := e];
    assert SlotsOk(ys) by { hide CString; }
    MapAfterInsert(xs, n, e);
    LiveOneMore(xs, n, e);
  }

  /** The slot behind a name. */
  lemma SlotOfName(xs: seq<Entry>, k: seq<Byte>) returns (m: int)
    requires SlotsOk(xs) && k in Names(xs)
    ensures 0 <= m < SLOTS && IsLive(xs[m]) && CString(xs[m].name) == k && Names(xs)[k] == (xs[m].no, xs[m].ftype)
  {
    hide CString;
    m :| 0 <= m < SLOTS && IsLive(xs[m]) && CString(xs[m].name) == k && Names(xs)[k] == (xs[m].no, xs[m].ftype);
  }

  lemma NameOfSlot(xs: seq<Entry>, m: int)
    requires SlotsOk(xs) && 0 <= m < SLOTS && IsLive(xs[m])
    ensures CString(xs[m].name) in Names(xs) && Names(xs)[CString(xs[m].name)] == (xs[m].no, xs[m].ftype)
  {
    hide CString;
  }

  lemma MapAfterInsert(xs: seq<Entry>, n: int, e: Entry)
    requires SlotsOk(xs) && IsFirstFree(xs, n) && IsNewEntry(xs, e) && SlotsOk(xs[n := e])
    ensures Names(xs[n := e]) == Names(xs)[CString(e.name) := (e.no, e.ftype)]
  {
    hide CString, Names, SlotsOk;
    var ys := xs[n := e];
    var a, b := Names(ys), Names(xs)[CString(e.name) := (e.no, e.ftype)];
    SlotsLength(xs);
    NameOfSlot(ys, n);
    forall k ensures k in a ==> k in b && a[k] == b[k] {
      if k in a {
        var m := SlotOfName(ys, k);
        if m != n { NameOfSlot(xs, m); }
      }
    }
    forall k ensures k in b ==> k in a {
      if k in b && k != CString(e.name) {
        var m := SlotOfName(xs, k);
        NameOfSlot(ys, m);
      }
    }
  }

  lemma SlotsLength(xs: seq<Entry>)
    requires SlotsOk(xs)
    ensures |xs| == SLOTS
  {
  }

  /** Deleting an entry other than "." and ".." removes that name only. */
  lemma DeleteFromMap(xs: seq<Entry>, n: int)
    requires SlotsOk(xs) && 0 <= n < SLOTS && IsLive(xs[n]) && !IsDots(xs[n])
    ensures SlotsOk(xs[n := ZeroEntry()]) && Names(xs[n := ZeroEntry()]) == Names(xs) - {CString(xs[n].name)}
    ensures |Live(xs[n := ZeroEntry()])| == |Live(xs)| - 1
  {
    var ys := xs[n := ZeroEntry()];
    assert SlotsOk(ys) by { hide CString; }
    MapAfterDelete(xs, n);
    LiveOneMore(ys, n, xs[n]);
    assert ys[n := xs[n]] == xs;
  }

  lemma MapAfterDelete(xs: seq<Entry>, n: int)
    requires SlotsOk(xs) && 0 <= n < SLOTS && IsLive(xs[n]) && SlotsOk(xs[n := ZeroEntry()])
    ensures Names(xs[n := ZeroEntry()]) == Names(xs) - {CString(xs[n].name)}
  {
    hide CString, Names, SlotsOk;
    SlotsLength(xs);
    var ys := xs[n := ZeroEntry()];
    var a, b := Names(ys), Names(xs) - {CString(xs[n].name)};
    forall k ensures k in a ==> k in b && a[k] == b[k] {
      if k in a {
        var m := SlotOfName(ys, k);
        NameOfSlot(xs, m);
        OneSlotPerName(xs, n, m);
      }
    }
    forall k ensures k in b ==> k in a {
      if k in b {
        var m := SlotOfName(xs, k);
        NameOfSlot(ys, m);
      }
    }
  }

  lemma OneSlotPerName(xs: seq<Entry>, n: int, m: int)
    requires SlotsOk(xs) && 0 <= n < SLOTS && 0 <= m < SLOTS && IsLive(xs[n]) && IsLive(xs[m]) && n != m
    ensures CString(xs[n].name) != CString(xs[m].name)
  {
    hide CString;
  }

  lemma {:induction false} LiveOneMore(xs: seq<Entry>, n: int, e: Entry)
    requires 0 <= n < |xs| && !IsLive(xs[n]) && IsLive(e)
    ensures |Live(xs[n := e])| == |Live(xs)| + 1
  {
    var last := |xs| - 1;
    if n == last {
      assert xs[n := e][..last] == xs[..last];
    } else {
      LiveOneMore(xs[..last], n, e);
      assert xs[n := e][..last] == xs[..last][n := e];
    }
  }

  lemma {:induction false} LiveLength(xs: seq<Entry>)
    ensures |Live(xs)| <= |xs|
    ensures |Live(xs)| == |xs| ==> forall n :: 0 <= n < |xs| ==> IsLive(xs[n])
  {
    if xs != [] {
      LiveLength(xs[..|xs| - 1]);
      if |Live(xs)| == |xs| {
        forall n | 0 <= n < |xs| ensures IsLive(xs[n]) {
          assert n < |xs| - 1 ==> xs[..|xs| - 1][n] == xs[n];
        }
      }
    }
  }
}
