/** Page allocation as functions on the state: `palloc`, `page_table_add`, `malloc_page` and
    `mfree_page` (v1-src/kernel/memory.c:145-222, v1-src/kernel/memory.c:344-453), and what they
    do to every address space. */
module Allocation {
  import opened Common
  import opened Paging
  import opened Vm
  import Bitmaps

  datatype PoolFlag = PF_KERNEL | PF_USER

  /** How a call ends: an ASSERT stops the kernel (in this file: a bitmap with no clear bit is
      scanned), NULL is returned, or the value is. */
  datatype Outcome<+T> = Halt | Null | Done(value: T)

  // `malloc_page` asserts that fewer pages are asked for.
  const MAX_PAGES := 3840

  predicate IsFull(bits: seq<bool>) {
    forall k :: 0 <= k < |bits| ==> bits[k]
  }

  function PoolOf(s: State, pf: PoolFlag): seq<bool> {
    if pf == PF_KERNEL then s.kernelPool else s.userPool
  }

  predicate InPool(s: State, pf: PoolFlag, f: Frame) {
    if pf == PF_KERNEL then InKernelPool(s, f) else InUserPool(s, f)
  }

  /** The number of the first frame `palloc` finds free. */
  function FirstFree(s: State, pf: PoolFlag): int {
    (if pf == PF_KERNEL then POOL_START else s.userStart) + Bitmaps.FirstFit(PoolOf(s, pf), 1)
  }

  /** `palloc`: the first free frame of the pool is taken; the kernel stops when there is none. */
  predicate Palloced(s: State, pf: PoolFlag, r: Outcome<Frame>, t: State) {
    if IsFull(PoolOf(s, pf)) then r == Halt && t == s
    else r.Done? && r.value == FirstFree(s, pf) && t == Take(s, r.value)
  }

  lemma FirstFreeIsFree(s: State, pf: PoolFlag)
    requires !IsFull(PoolOf(s, pf))
    requires Inv(s)
    ensures Bitmaps.FirstFit(PoolOf(s, pf), 1) != -1
    ensures var f := FirstFree(s, pf); 0 <= f < FRAMES && f !in s.own && InPool(s, pf, f)
  {
    hide DirsOk, KernelOk, UserOk, TablesOk, PendingOk, RightsOk;
    var pool := PoolOf(s, pf);
    var k :| 0 <= k < |pool| && !pool[k];
    assert Bitmaps.Clear(pool, k, 1);
    var i := Bitmaps.FirstFit(pool, 1);
    assert !pool[i];
    var f: Frame := (if pf == PF_KERNEL then POOL_START else s.userStart) + i;
    assert !PoolBit(s, f);
  }

  predicate NeedsTable(s: State, d: Frame, vp: int) {
    0 <= vp < KERNEL_BASE && !Present(s.mem[d][vp / ENTRIES])
  }

  /** A missing page table is taken from the kernel pool, entered and cleared. */
  function WithTable(s: State, d: Frame, vp: int): State {
    if NeedsTable(s, d, vp) then
      var t := FirstFree(s, PF_KERNEL);
      if 0 <= t < FRAMES then AddTable(Take(s, t), d, vp / ENTRIES, t) else s
    else s
  }

  /** `page_table_add` of a reserved frame while directory `dir` is active; the kernel stops when
      it finds no frame for a table. */
  function PageAdded(s: State, dir: Frame, vp: int, f: Frame): Outcome<State> {
    if NeedsTable(s, dir, vp) && IsFull(s.kernelPool) then Halt
    else Done(Map(WithTable(s, dir, vp), SpaceOf(dir, vp), vp, f))
  }

  /** The outcome of adding a table: seen through the window, its entries are clear. */
  ghost predicate TableAdded(s: State, dir: Frame, vaddr: Word, ok: bool, t: State) {
    && ok == !IsFull(s.kernelPool)
    && (ok ==>
        && t == WithTable(s, dir, vaddr / PAGE_SIZE) && SelfMapped(t.mem, dir)
        && Present(t.mem[dir][PdeIdx(vaddr)]) && Admits(t.mem[dir][PdeIdx(vaddr)])
        && !Present(Entry(t.mem, dir, vaddr / PAGE_SIZE))
        && FrameOf(t.mem[dir][PdeIdx(vaddr)]) == TableOf(t.mem, dir, vaddr / PAGE_SIZE))
  }

  lemma WithTableKeepsInv(s: State, d: Frame, vp: int)
    requires Inv(s) && (vp < KERNEL_BASE ==> d in s.userBits)
    requires NeedsTable(s, d, vp) ==> !IsFull(s.kernelPool)
    ensures var t := WithTable(s, d, vp); Inv(t) && SameEntries(s, t.mem) && !NeedsTable(t, d, vp)
  {
    hide Inv, SameEntries;
    if NeedsTable(s, d, vp) {
      FirstFreeIsFree(s, PF_KERNEL);
      var f := FirstFree(s, PF_KERNEL);
      var taken := Take(s, f);
      TakeKeepsInv(s, f);
      assert CanAddTable(taken, d, vp / ENTRIES, f);
      AddTableKeepsInv(taken, d, vp / ENTRIES, f);
      var t := WithTable(s, d, vp);
      assert SameEntries(s, t.mem) by { SameAfterTake(s, f, t.mem); }
      assert t.mem[d][vp / ENTRIES] == EntryFor(f) by { TakenIsNoDir(s, f); }
    } else {
      SameEntriesRefl(s);
    }
  }

  lemma SameAfterTake(s: State, f: Frame, mem: Memory)
    requires SameEntries(Take(s, f), mem)
    ensures SameEntries(s, mem)
  {
  }

  lemma SameEntriesRefl(s: State)
    ensures SameEntries(s, s.mem)
  {
  }

  lemma TakenIsNoDir(s: State, f: Frame)
    requires f !in s.own
    requires Inv(s)
    ensures f !in s.userBits
  {
    hide KernelOk, UserOk, TablesOk, OwnOk, PendingOk, KernelHalf, RightsOk;
  }

  lemma DirIsSelfMapped(s: State, dir: Frame)
    requires Inv(s) && (dir in s.userBits || dir == BOOT_DIR)
    ensures SelfMapped(s.mem, dir) && KernelHalf(s.mem, dir)
  {
    hide KernelOk, UserOk, TablesOk, OwnOk, PendingOk, RightsOk;
  }

  lemma SizesOf(s: State)
    requires Inv(s)
    ensures Sizes(s)
  {
  }

  lemma FirstFitOfRoom(bits: seq<bool>)
    requires !IsFull(bits)
    ensures 0 <= Bitmaps.FirstFit(bits, 1) < |bits|
  {
    var k :| 0 <= k < |bits| && !bits[k];
    assert Bitmaps.Clear(bits, k, 1);
  }

  /** The space in which an address is mapped when `dir` is active. */
  function SpaceOf(dir: Frame, vp: int): Frame {
    if vp < KERNEL_BASE then dir else BOOT_DIR
  }

  predicate CanAddPage(s: State, dir: Frame, vp: int, f: Frame) {
    && IsSite(s, SpaceOf(dir, vp), vp) && (SpaceOf(dir, vp), vp) in s.pending
    && f in s.own && s.own[f] == Reserved
    && if vp < KERNEL_BASE then InUserPool(s, f) else InKernelPool(s, f)
  }

  /** What `page_table_add` relies on: page-aligned addresses, a self-mapped active directory, an
      entry that is not present, and kernel tables where the boot loader put them. */
  ghost predicate CanWriteEntry(s: State, dir: Frame, vaddr: Word, paddr: Word) {
    var vp := vaddr / PAGE_SIZE;
    && vaddr % PAGE_SIZE == 0 && paddr % PAGE_SIZE == 0
    && Sizes(s) && SelfMapped(s.mem, dir)
    && vp / ENTRIES == PdeIdx(vaddr) && vp % ENTRIES == PteIdx(vaddr) && PdeIdx(vaddr) != 1023
    && !Present(Entry(s.mem, dir, vp))
    && (NeedsTable(s, dir, vp) <==> !Present(s.mem[dir][PdeIdx(vaddr)]))
    && (NeedsTable(s, dir, vp) ==> IsFull(s.kernelPool) || FirstFree(s, PF_KERNEL) != dir)
    && (!NeedsTable(s, dir, vp) ==>
        && TableOf(s.mem, SpaceOf(dir, vp), vp) == FrameOf(s.mem[dir][PdeIdx(vaddr)]) != dir
        && Admits(s.mem[dir][PdeIdx(vaddr)]))
  }

  /** The ASSERT on a clear entry holds, and the rest too, whenever a frame has been reserved for
      a page whose bit is set and which is not mapped yet. */
  lemma ReservedCanBeMapped(s: State, dir: Frame, vaddr: Word, paddr: Word)
    requires Inv(s) && (dir in s.userBits || dir == BOOT_DIR)
    requires vaddr % PAGE_SIZE == 0 && paddr % PAGE_SIZE == 0
    requires CanAddPage(s, dir, vaddr / PAGE_SIZE, paddr / PAGE_SIZE)
    ensures CanWriteEntry(s, dir, vaddr, paddr)
  {
    hide Inv, Present, FrameOf, Admits, TableOf, IsFull, Entry, UEntry, KEntry;
    var vp := vaddr / PAGE_SIZE;
    DirIsSelfMapped(s, dir);
    SizesOf(s);
    PendingIsClear(s, dir, vp);
    assert vp / ENTRIES == PdeIdx(vaddr) && vp % ENTRIES == PteIdx(vaddr);
    if NeedsTable(s, dir, vp) {
      if !IsFull(s.kernelPool) {
        FirstFreeIsFree(s, PF_KERNEL);
        FreeIsNoDir(s, FirstFree(s, PF_KERNEL));
      }
    } else {
      TableOfPage(s, dir, vp);
    }
  }

  lemma FreeIsNoDir(s: State, f: Frame)
    requires f !in s.own && InKernelPool(s, f)
    requires Inv(s)
    ensures f !in s.userBits && f != BOOT_DIR
  {
    hide KernelOk, UserOk, TablesOk, OwnOk, PendingOk, KernelHalf, RightsOk;
  }

  /** A page that is pending is a page of its space and has no present entry. */
  lemma PendingIsClear(s: State, dir: Frame, vp: int)
    requires IsSite(s, SpaceOf(dir, vp), vp) && (SpaceOf(dir, vp), vp) in s.pending
    requires IsDir(s, dir)
    requires Inv(s)
    ensures !Present(Entry(s.mem, dir, vp)) && vp / ENTRIES != 1023
    ensures NeedsTable(s, dir, vp) <==> !Present(s.mem[dir][vp / ENTRIES])
  {
    hide OwnOk, TablesOk, PendingOk, RightsOk;
  }

  /** The table that a directory has for a page is that of the page's space, and no directory; its entry
      admits user stores. */
  lemma TableOfPage(s: State, dir: Frame, vp: int)
    requires IsSite(s, SpaceOf(dir, vp), vp) && IsDir(s, dir) && !NeedsTable(s, dir, vp)
    requires Inv(s)
    ensures TableOf(s.mem, SpaceOf(dir, vp), vp) == FrameOf(s.mem[dir][vp / ENTRIES]) != dir
    ensures Admits(s.mem[dir][vp / ENTRIES])
  {
    hide KernelOk, UserOk, OwnOk, PendingOk, Admits;
    assert IsReady(s, SpaceOf(dir, vp), vp);
    TablesApart(s, SpaceOf(dir, vp), vp);
  }

  // ---------- runs of pages ----------

  predicate IsDir(s: State, dir: Frame) { dir in s.userBits || dir == BOOT_DIR }

  /** One round of the loop of `malloc_page`: take a frame, map it. */
  function OneMapped(s: State, dir: Frame, pf: PoolFlag, vp: int): Outcome<State> {
    var f := FirstFree(s, pf);
    if IsFull(PoolOf(s, pf)) || !(0 <= f < FRAMES) then Halt else PageAdded(Take(s, f), dir, vp, f)
  }

  /** The loop of `malloc_page`. */
  function MapRun(s: State, dir: Frame, pf: PoolFlag, vp: int, n: nat): Outcome<State>
    decreases n
  {
    if n == 0 then Done(s)
    else match OneMapped(s, dir, pf, vp)
         case Done(t) => MapRun(t, dir, pf, vp + 1, n - 1)
         case _ => Halt
  }

  predicate IsNewRole(role: Role, d: Frame, first: int, n: nat) {
    match role
    case Reserved => false
    case KernelPage(vp) => d == BOOT_DIR && first <= vp < first + n
    case UserPage(e, vp) => e == d && first <= vp < first + n
    case UserTable(e, _) => e == d
  }

  /** Only the entries of the pages first .. first + n - 1 of one space differ. */
  ghost predicate EntriesExcept(s: State, mem: Memory, d: Frame, first: int, n: nat) {
    && (forall k :: IsKernelVp(k) && !(d == BOOT_DIR && first <= k < first + n) ==> KEntry(mem, k) == KEntry(s.mem, k))
    && (forall e, u :: e in s.userBits && 0 <= u < KERNEL_BASE && !(e == d && first <= u < first + n) ==>
          UEntry(mem, e, u) == UEntry(s.mem, e, u))
  }

  /** Frames in use keep their use; frames are newly taken only for the pages of the run and for
      page tables of the same space. */
  ghost predicate OwnGrows(s: State, t: State, d: Frame, first: int, n: nat) {
    && (forall f :: f in s.own ==> f in t.own && t.own[f] == s.own[f])
    && (forall f :: f in t.own && f !in s.own ==> IsNewRole(t.own[f], d, first, n))
  }

  /** No page of data changes. */
  ghost predicate DataKept(s: State, t: State) {
    forall f: Frame :: IsData(s, f) ==> t.mem[f] == s.mem[f]
  }

  predicate SameBits(s: State, t: State) {
    && t.userBits == s.userBits && t.kernelBits == s.kernelBits && t.userStart == s.userStart
    && |t.kernelPool| == |s.kernelPool| && |t.userPool| == |s.userPool|
  }

  /** A page that has an entry: a kernel page, or a page of one user space. */
  predicate IsPlace(s: State, d: Frame, vp: int) {
    (d == BOOT_DIR && IsKernelVp(vp)) || (d in s.userBits && 0 <= vp < KERNEL_BASE)
  }

  /** `t` is `s` with the n pages from `first` on mapped to frames that were free in `s`; no other
      page's entry, no frame in use and no page's contents is different. */
  ghost predicate MapsExactly(s: State, t: State, d: Frame, first: int, n: nat) {
    && SameBits(s, t)
    && t.pending == s.pending - Range(d, first, n)
    && EntriesExcept(s, t.mem, d, first, n)
    && (forall vp :: first <= vp < first + n ==>
          IsPlace(s, d, vp) && Present(At(t.mem, d, vp)) && FrameOf(At(t.mem, d, vp)) !in s.own)
    && OwnGrows(s, t, d, first, n)
    && DataKept(s, t)
  }

  lemma TakeIsExact(s: State, f: Frame, d: Frame, first: int, n: nat)
    requires f !in s.own
    ensures var t := Take(s, f); SameBits(s, t) && t.pending == s.pending && DataKept(s, t)
  {
    hide KEntry, UEntry, Present;
  }

  lemma TableIsExact(s: State, d: Frame, vp: int)
    requires Inv(s) && (vp < KERNEL_BASE ==> d in s.userBits) && (NeedsTable(s, d, vp) ==> !IsFull(s.kernelPool))
    ensures var t := WithTable(s, d, vp);
      && SameBits(s, t) && t.pending == s.pending && DataKept(s, t)
      && OwnGrows(s, t, d, 0, 0)
  {
    if NeedsTable(s, d, vp) {
      FirstFreeIsFree(s, PF_KERNEL);
      ThisTableIsExact(s, d, vp / ENTRIES, FirstFree(s, PF_KERNEL));
    }
  }

  lemma ThisTableIsExact(s: State, d: Frame, di: Index, f: Frame)
    requires f !in s.own && (d in s.userBits ==> d in s.own)
    requires d in s.userBits
    ensures var t := AddTable(Take(s, f), d, di, f);
      SameBits(s, t) && t.pending == s.pending && DataKept(s, t) && OwnGrows(s, t, d, 0, 0)
  {
    hide EntryFor;
    var t := AddTable(Take(s, f), d, di, f);
    assert SameBits(s, t) && t.pending == s.pending by { hide WithEntry; }
    assert DataKept(s, t) by { hide SameBits, PoolWith; }
    assert OwnGrows(s, t, d, 0, 0) by { hide SameBits, PoolWith, WithEntry; }
    hide SameBits, DataKept, OwnGrows;
  }

  lemma MapIsExact(s: State, d: Frame, vp: int, f: Frame)
    requires IsReady(s, d, vp) && f in s.own && s.own[f] == Reserved
    requires Inv(s)
    ensures DataKept(s, Map(s, d, vp, f))
  {
    hide KernelOk, UserOk, PendingOk, KernelHalf, KEntry, UEntry, RightsOk;
    var table := TableOf(s.mem, d, vp);
    assert !IsData(s, table) by { TablesApart(s, d, vp); }
  }

  lemma DataKeptTrans(s: State, t: State, u: State)
    requires DataKept(s, t) && DataKept(t, u) && t.userBits == s.userBits
    requires forall f :: f in s.own ==> f in t.own && t.own[f] == s.own[f]
    ensures DataKept(s, u)
  {
    assert forall f: Frame :: IsData(s, f) ==> IsData(t, f);
  }

  predicate CanMapOne(s: State, dir: Frame, pf: PoolFlag, vp: int) {
    && IsDir(s, dir) && OneMapped(s, dir, pf, vp).Done?
    && (pf == PF_USER ==> dir in s.userBits && IsUserVp(vp))
    && (pf == PF_KERNEL ==> InHeap(s, vp))
    && (SpaceOf(dir, vp), vp) in s.pending
  }

  /** The round passes through a state in which frame f is reserved and the page table is there. */
  ghost predicate RoundFacts(s: State, dir: Frame, pf: PoolFlag, vp: int, f: Frame, ready: State, t: State) {
    && f == FirstFree(s, pf) && f !in s.own && IsPlace(s, SpaceOf(dir, vp), vp)
    && OneMapped(s, dir, pf, vp) == Done(t)
    && t == Map(ready, SpaceOf(dir, vp), vp, f)
    && SameEntries(s, ready.mem) && OnlyEntry(ready, t.mem, SpaceOf(dir, vp), vp, EntryFor(f))
    && SameBits(s, ready) && ready.pending == s.pending
    && OwnGrows(Take(s, f), ready, dir, 0, 0)
    && DataKept(s, ready) && DataKept(ready, t)
    && ready == WithTable(Take(s, f), dir, vp) && (vp >= KERNEL_BASE ==> ready == Take(s, f))
  }

  /** Up to the point where the frame is reserved and the page table is there. */
  ghost predicate ReadyFacts(s: State, dir: Frame, pf: PoolFlag, vp: int, f: Frame, ready: State) {
    && f == FirstFree(s, pf) && f !in s.own && ready == WithTable(Take(s, f), dir, vp)
    && SameEntries(s, ready.mem) && SameBits(s, ready) && ready.pending == s.pending
    && OwnGrows(Take(s, f), ready, dir, 0, 0) && DataKept(s, ready)
    && IsReady(ready, SpaceOf(dir, vp), vp)
    && (if vp < KERNEL_BASE then InUserPool(ready, f) else InKernelPool(ready, f))
  }

  lemma RoundReady(s: State, dir: Frame, pf: PoolFlag, vp: int) returns (f: Frame, ready: State)
    requires CanMapOne(s, dir, pf, vp) && Inv(s)
    ensures Inv(ready) && ReadyFacts(s, dir, pf, vp, f, ready)
  {
    hide Inv, Sizes, KEntry, UEntry, Present, FrameOf, WithTable, SameEntries, DataKept, IsFull, CanMapOne, IsReady;
    hide PoolOf;
    SizesOf(s);
    RoundCases(s, dir, pf, vp);
    FirstFreeIsFree(s, pf);
    f := FirstFree(s, pf);
    var taken := Take(s, f);
    TakeKeepsInv(s, f);
    WithTableKeepsInv(taken, dir, vp);
    ready := WithTable(taken, dir, vp);
    TakeIsExact(s, f, dir, vp, 1);
    TableIsExact(taken, dir, vp);
    SameAfterTake(s, f, ready.mem);
    DataKeptTrans(s, taken, ready);
    RoundIsReady(s, ready, dir, pf, vp);
  }

  lemma RoundIsReady(s: State, t: State, dir: Frame, pf: PoolFlag, vp: int)
    requires CanMapOne(s, dir, pf, vp) && SameBits(s, t) && !NeedsTable(t, dir, vp) && Sizes(s)
    ensures IsReady(t, SpaceOf(dir, vp), vp)
  {
    hide OneMapped, Present;
  }

  lemma RoundCases(s: State, dir: Frame, pf: PoolFlag, vp: int)
    requires Sizes(s) && CanMapOne(s, dir, pf, vp)
    ensures !IsFull(PoolOf(s, pf))
    ensures 0 <= FirstFree(s, pf) < FRAMES && var t := Take(s, FirstFree(s, pf));
            NeedsTable(t, dir, vp) ==> !IsFull(t.kernelPool)
    ensures vp < KERNEL_BASE ==> dir in s.userBits && 0 <= vp
    ensures vp < KERNEL_BASE <==> pf == PF_USER
    ensures vp >= KERNEL_BASE ==> IsKernelVp(vp) && InHeap(s, vp)
  {
    hide IsFull, Present;
  }

  lemma RoundKeepsInv(s: State, dir: Frame, pf: PoolFlag, vp: int) returns (f: Frame, ready: State, t: State)
    requires CanMapOne(s, dir, pf, vp) && Inv(s)
    ensures Inv(t) && RoundFacts(s, dir, pf, vp, f, ready, t)
  {
    hide Inv, Sizes, KEntry, UEntry, Present, FrameOf, WithTable, OnlyEntry, SameEntries, DataKept, IsFull, NeedsTable;
    hide IsReady;
    SizesOf(s);
    RoundCases(s, dir, pf, vp);
    f, ready := RoundReady(s, dir, pf, vp);
    var d := SpaceOf(dir, vp);
    t := Map(ready, d, vp, f);
    MapKeepsInv(ready, d, vp, f);
    MapIsExact(ready, d, vp, f);
    KernelNeedsNoTable(Take(s, f), dir, vp);
  }

  lemma KernelNeedsNoTable(s: State, dir: Frame, vp: int)
    ensures vp >= KERNEL_BASE ==> WithTable(s, dir, vp) == s
  {
  }

  lemma RoundIsExact(s: State, dir: Frame, pf: PoolFlag, vp: int, f: Frame, ready: State, t: State)
    requires RoundFacts(s, dir, pf, vp, f, ready, t)
    ensures MapsExactly(s, t, SpaceOf(dir, vp), vp, 1)
  {
    var d := SpaceOf(dir, vp);
    hide Inv, KEntry, UEntry, Present, FrameOf, WithTable, OneMapped, FirstFree;
    assert DataKept(s, t) by {
      hide DataKept;
      DataKeptTrans(s, ready, t);
    }
    assert OwnGrows(s, t, d, vp, 1);
    hide DataKept, OwnGrows;
  }

  lemma MapsExactlyChain(s: State, t: State, u: State, d: Frame, first: int, n: nat)
    requires MapsExactly(s, t, d, first, 1) && MapsExactly(t, u, d, first + 1, n)
    ensures MapsExactly(s, u, d, first, n + 1)
  {
    hide KEntry, UEntry, Present, FrameOf;
    assert DataKept(s, u) by {
      hide DataKept;
      DataKeptTrans(s, t, u);
    }
    assert OwnGrows(s, u, d, first, n + 1);
    assert forall f :: f in s.own ==> f in t.own;
    hide DataKept, OwnGrows;
    assert IsPlace(s, d, first) && IsPlace(t, d, first);
    assert At(u.mem, d, first) == At(t.mem, d, first);
    assert u.pending == s.pending - Range(d, first, n + 1);
    assert EntriesExcept(s, u.mem, d, first, n + 1);
    assert SameBits(s, u);
    forall vp | first <= vp < first + n + 1
      ensures IsPlace(s, d, vp) && Present(At(u.mem, d, vp)) && FrameOf(At(u.mem, d, vp)) !in s.own
    {
      assert vp > first ==> IsPlace(t, d, vp);
    }
  }

  /** The pages of the run are pages of the right kind whose bits are set and which are pending. */
  ghost predicate IsPendingRun(s: State, dir: Frame, pf: PoolFlag, vp: int, n: nat) {
    && IsDir(s, dir)
    && (pf == PF_USER ==> dir in s.userBits && USER_START <= vp && vp + n <= KERNEL_BASE)
    && (pf == PF_KERNEL ==> KERNEL_HEAP <= vp && vp + n <= KERNEL_HEAP + |s.kernelBits|)
    && (forall v :: vp <= v < vp + n ==> (SpaceOf(dir, v), v) in s.pending)
  }

  function PoolSpace(dir: Frame, pf: PoolFlag): Frame {
    if pf == PF_KERNEL then BOOT_DIR else dir
  }

  /** The loop of `malloc_page` either stops the kernel or maps exactly its run. */
  lemma {:induction false} MapRunIsExact(s: State, dir: Frame, pf: PoolFlag, vp: int, n: nat) returns (u: State)
    requires IsPendingRun(s, dir, pf, vp, n) && MapRun(s, dir, pf, vp, n).Done?
    requires Inv(s)
    ensures MapRun(s, dir, pf, vp, n) == Done(u) && Inv(u) && MapsExactly(s, u, PoolSpace(dir, pf), vp, n)
    decreases n
  {
    hide Inv, KEntry, UEntry, Present, FrameOf, MapsExactly, OneMapped;
    if n == 0 {
      u := s;
      NothingMapped(s, PoolSpace(dir, pf), vp);
    } else {
      assert CanMapOne(s, dir, pf, vp);
      var f, ready, t := RoundKeepsInv(s, dir, pf, vp);
      RoundIsExact(s, dir, pf, vp, f, ready, t);
      NextRun(s, t, dir, pf, vp, n);
      u := MapRunIsExact(t, dir, pf, vp + 1, n - 1);
      MapsExactlyChain(s, t, u, PoolSpace(dir, pf), vp, n - 1);
    }
  }

  lemma NextRun(s: State, t: State, dir: Frame, pf: PoolFlag, vp: int, n: nat)
    requires n > 0 && IsPendingRun(s, dir, pf, vp, n) && MapsExactly(s, t, SpaceOf(dir, vp), vp, 1)
    ensures IsPendingRun(t, dir, pf, vp + 1, n - 1)
    ensures |s.kernelBits| + KERNEL_HEAP <= SELF * ENTRIES ==> SpaceOf(dir, vp) == PoolSpace(dir, pf)
  {
    hide KEntry, UEntry, Present, FrameOf;
  }

  lemma NothingMapped(s: State, d: Frame, vp: int)
    ensures MapsExactly(s, s, d, vp, 0)
  {
  }

  /** `malloc_page` of cnt > 0 pages, run by a thread whose directory is `dir`: the first run of
      cnt clear bits of the virtual bitmap is set and mapped. A scan of a full bitmap stops the
      kernel, and so does a user run that would start at the last page below the kernel. */
  function MallocPage(s: State, dir: Frame, pf: PoolFlag, cnt: nat): Outcome<State> {
    var d := PoolSpace(dir, pf);
    var first := FirstRun(s, d, cnt);
    if IsFull(BitsOf(s, d)) then Halt
    else if first < FirstPage(d) then Null
    else if !IsRange(s, d, first, cnt) || (pf == PF_USER && first >= KERNEL_BASE - 1) then Halt
    else MapRun(Reserve(s, d, first, cnt), dir, pf, first, cnt)
  }

  /** The first page of the first run of cnt free pages; one below the space when there is none. */
  function FirstRun(s: State, d: Frame, cnt: nat): int {
    FirstPage(d) + Bitmaps.FirstFit(BitsOf(s, d), cnt)
  }

  /** The first fit is always a run of pages of the space: the guard in `MallocPage` never fails. */
  lemma FirstRunIsRange(s: State, d: Frame, cnt: nat)
    requires cnt > 0 && IsDir(s, d) && FirstRun(s, d, cnt) >= FirstPage(d)
    requires Inv(s)
    ensures IsRange(s, d, FirstRun(s, d, cnt), cnt)
    ensures Bitmaps.Clear(BitsOf(s, d), FirstRun(s, d, cnt) - FirstPage(d), cnt)
  {
    BootIsNoUserDir(s);
    hide DirsOk, KernelOk, TablesOk, UserOk, OwnOk, PendingOk, RightsOk;
  }

  /** `malloc_page` leaves a settled state: it has set the bits of its run and mapped exactly the
      pages of that run, in its own space, to frames nobody was using. */
  lemma MallocPageMapsItsRun(s: State, dir: Frame, pf: PoolFlag, cnt: nat) returns (u: State)
    requires cnt > 0 && IsDir(s, dir) && (pf == PF_USER ==> dir in s.userBits)
    requires MallocPage(s, dir, pf, cnt).Done?
    requires Settled(s) && Inv(s)
    ensures MallocPage(s, dir, pf, cnt) == Done(u) && Inv(u) && Settled(u)
    ensures var d, first := PoolSpace(dir, pf), FirstRun(s, PoolSpace(dir, pf), cnt);
            IsRange(s, d, first, cnt) && MapsExactly(Reserve(s, d, first, cnt), u, d, first, cnt)
  {
    hide Inv, MapRun, Settled;
    var d := PoolSpace(dir, pf);
    var first := FirstRun(s, d, cnt);
    FirstRunIsRange(s, d, cnt);
    var t := Reserve(s, d, first, cnt);
    ReserveKeepsInv(s, d, first, cnt);
    SizesOf(s);
    BootIsNoUserDir(s);
    assert IsPendingRun(t, dir, pf, first, cnt);
    u := MapRunIsExact(t, dir, pf, first, cnt);
    SettledAgain(s, t, u, d, first, cnt);
  }

  lemma SettledAgain(s: State, t: State, u: State, d: Frame, first: int, n: nat)
    requires Settled(s) && t.own == s.own && t.pending == s.pending + Range(d, first, n)
             && MapsExactly(t, u, d, first, n)
    ensures Settled(u)
  {
    hide EntriesExcept, DataKept, IsPlace;
    forall f | f in u.own ensures u.own[f] != Reserved {
      assert f !in t.own ==> IsNewRole(u.own[f], d, first, n);
    }
  }

  /** A page that `get_a_page` may get: not the first of its space, and free. */
  predicate CanGet(s: State, dir: Frame, pf: PoolFlag, vp: int) {
    var d := PoolSpace(dir, pf);
    && IsDir(s, dir) && (pf == PF_USER ==> dir in s.userBits)
    && IsRange(s, d, vp, 1) && vp > FirstPage(d) && !BitsOf(s, d)[vp - FirstPage(d)]
  }

  /** `get_a_page`: the bit of that page is set and the page mapped. */
  function PageGot(s: State, dir: Frame, pf: PoolFlag, vp: int): Outcome<State>
    requires CanGet(s, dir, pf, vp)
  {
    MapRun(Reserve(s, PoolSpace(dir, pf), vp, 1), dir, pf, vp, 1)
  }

  /** The outcome of get_a_page. */
  ghost predicate GetsPage(s: State, dir: Frame, pf: PoolFlag, vp: int, r: Outcome<State>) {
    CanGet(s, dir, pf, vp) && PageGot(s, dir, pf, vp) == r
  }

  /** A page that was free is mapped, and nothing else. */
  ghost predicate MapsOne(s: State, t: State, d: Frame, vp: int) {
    IsRange(s, d, vp, 1) && MapsExactly(Reserve(s, d, vp, 1), t, d, vp, 1)
  }

  lemma PageGotIsExact(s: State, dir: Frame, pf: PoolFlag, vp: int) returns (u: State)
    requires CanGet(s, dir, pf, vp) && PageGot(s, dir, pf, vp).Done?
    requires Settled(s) && Inv(s)
    ensures PageGot(s, dir, pf, vp) == Done(u) && Inv(u) && Settled(u)
    ensures var d := PoolSpace(dir, pf);
            IsRange(s, d, vp, 1) && MapsExactly(Reserve(s, d, vp, 1), u, d, vp, 1)
  {
    hide Inv, Sizes, Settled, MapRun, IsPendingRun, Reserve, MapsExactly, IsRange;
    var d := PoolSpace(dir, pf);
    BootIsNoUserDir(s);
    SizesOf(s);
    assert CanGet(s, dir, pf, vp) && Bitmaps.Clear(BitsOf(s, d), vp - FirstPage(d), 1) by { RangeOfOne(s, d, vp); }
    ReserveKeepsInv(s, d, vp, 1);
    ReservedIsPending(s, dir, pf, vp, 1);
    u := MapRunIsExact(Reserve(s, d, vp, 1), dir, pf, vp, 1);
    OnlyReserved(s, d, vp, 1);
    SettledAgain(s, Reserve(s, d, vp, 1), u, d, vp, 1);
  }

  lemma RangeOfOne(s: State, d: Frame, vp: int)
    requires IsRange(s, d, vp, 1)
    ensures 0 <= vp - FirstPage(d) < |BitsOf(s, d)| && vp + 1 <= FRAMES
  {
  }

  lemma OnlyReserved(s: State, d: Frame, first: int, n: nat)
    requires IsRange(s, d, first, n)
    ensures var t := Reserve(s, d, first, n); t.own == s.own && t.pending == s.pending + Range(d, first, n)
  {
  }

  // ---------- freeing ----------

  function UnmapRun(s: State, d: Frame, vp: int, n: nat): State
    decreases n
  {
    if n == 0 then s else UnmapRun(Unmap(s, d, vp), d, vp + 1, n - 1)
  }

  /** `mfree_page`: each page's frame is freed and its entry cleared, then the bits are cleared. */
  function MFreePage(s: State, d: Frame, first: int, cnt: nat): State {
    var t := UnmapRun(s, d, first, cnt);
    if IsRange(t, d, first, cnt) then Release(t, d, first, cnt) else t
  }

  predicate IsRoleIn(role: Role, d: Frame, first: int, n: nat) {
    match role
    case KernelPage(vp) => d == BOOT_DIR && first <= vp < first + n
    case UserPage(e, vp) => e == d && first <= vp < first + n
    case _ => false
  }

  /** `t` is `s` with the n pages from `first` on unmapped and their frames free. */
  ghost predicate UnmapsExactly(s: State, t: State, d: Frame, first: int, n: nat) {
    && SameBits(s, t)
    && t.pending == s.pending + Range(d, first, n)
    && EntriesExcept(s, t.mem, d, first, n)
    && (forall vp :: first <= vp < first + n ==> IsPlace(s, d, vp) && !Present(At(t.mem, d, vp)))
    && (forall f :: f in t.own <==> f in s.own && !IsRoleIn(s.own[f], d, first, n))
    && (forall f :: f in t.own ==> t.own[f] == s.own[f])
    && (forall f: Frame :: IsData(t, f) ==> t.mem[f] == s.mem[f])
  }

  /** The pages may be freed: they are mapped pages of the space, and no directories. */
  ghost predicate CanFree(s: State, d: Frame, first: int, n: nat) {
    && IsRange(s, d, first, n)
    && forall vp :: first <= vp < first + n ==> CanUnmap(s, d, vp) && IsPlace(s, d, vp)
  }

  /** The frame of a mapped page is the only one in the page's role, and no page table is data. */
  ghost predicate UnmapFacts(s: State, d: Frame, vp: int, f: Frame) {
    && f == FrameOf(At(s.mem, d, vp)) && f in s.own && s.own[f] == RoleAt(d, vp)
    && (forall g :: g in s.own && IsRoleIn(s.own[g], d, vp, 1) ==> g == f)
    && (var t := TableOf(s.mem, d, vp); t !in s.own || s.own[t].UserTable?)
  }

  lemma UnmapHasFacts(s: State, d: Frame, vp: int) returns (f: Frame)
    requires CanUnmap(s, d, vp) && IsPlace(s, d, vp)
    requires Inv(s)
    ensures UnmapFacts(s, d, vp, f)
  {
    f := FrameOf(At(s.mem, d, vp));
    assert f in s.own && s.own[f] == RoleAt(d, vp) by { hide OwnOk, TablesOk, DirsOk, RightsOk; }
    assert var t := TableOf(s.mem, d, vp); t !in s.own || s.own[t].UserTable? by {
      hide KernelOk, UserOk, OwnOk, DirsOk, KEntry, UEntry, RightsOk;
      TablesApart(s, d, vp);
    }
    hide KernelOk, UserOk, TablesOk, DirsOk, KEntry, UEntry, RightsOk;
    forall g | g in s.own && IsRoleIn(s.own[g], d, vp, 1) ensures g == f { assert RoleOk(s, g); }
  }

  lemma UnmapIsExact(s: State, d: Frame, vp: int)
    requires CanUnmap(s, d, vp) && IsPlace(s, d, vp)
    requires Inv(s)
    ensures UnmapsExactly(s, Unmap(s, d, vp), d, vp, 1)
  {
    hide Inv, KEntry, UEntry, Present, FrameOf;
    UnmapKeepsInv(s, d, vp);
    var f := UnmapHasFacts(s, d, vp);
  }

  lemma UnmapsExactlyChain(s: State, t: State, u: State, d: Frame, first: int, n: nat)
    requires UnmapsExactly(s, t, d, first, 1) && UnmapsExactly(t, u, d, first + 1, n)
    ensures UnmapsExactly(s, u, d, first, n + 1)
  {
    hide KEntry, UEntry, Present, FrameOf;
    assert u.pending == s.pending + Range(d, first, n + 1);
    assert EntriesExcept(s, u.mem, d, first, n + 1);
    assert IsPlace(s, d, first) && IsPlace(t, d, first);
    assert At(u.mem, d, first) == At(t.mem, d, first);
    forall vp | first <= vp < first + n + 1 ensures IsPlace(s, d, vp) && !Present(At(u.mem, d, vp)) {
      assert vp > first ==> IsPlace(t, d, vp);
    }
    hide EntriesExcept;
    assert forall f: Frame :: IsData(u, f) ==> IsData(t, f);
  }

  lemma CanFreeRest(s: State, t: State, d: Frame, first: int, n: nat)
    requires n > 0 && CanFree(s, d, first, n) && UnmapsExactly(s, t, d, first, 1)
    requires Inv(s) && Inv(t)
    ensures CanFree(t, d, first + 1, n - 1)
  {
    hide Inv, KEntry, UEntry, Present, FrameOf;
    forall vp | first + 1 <= vp < first + n ensures CanUnmap(t, d, vp) && IsPlace(t, d, vp) {
      assert CanUnmap(s, d, vp) && IsPlace(s, d, vp);
      assert At(t.mem, d, vp) == At(s.mem, d, vp);
      PresentIsReady(t, d, vp);
    }
  }

  lemma PresentIsReady(s: State, d: Frame, vp: int)
    requires IsSite(s, d, vp) && IsPlace(s, d, vp) && Present(At(s.mem, d, vp))
    ensures IsReady(s, d, vp)
  {
  }

  lemma {:induction false} UnmapRunIsExact(s: State, d: Frame, first: int, n: nat)
    requires CanFree(s, d, first, n)
    requires Inv(s)
    ensures Inv(UnmapRun(s, d, first, n)) && UnmapsExactly(s, UnmapRun(s, d, first, n), d, first, n)
    decreases n
  {
    hide Inv, KEntry, UEntry, Present, FrameOf, UnmapsExactly, Unmap, CanUnmap, CanFree;
    if n == 0 {
      NothingUnmapped(s, d, first);
    } else {
      var t := Unmap(s, d, first);
      FirstCanGo(s, d, first, n);
      UnmapKeepsInv(s, d, first);
      UnmapIsExact(s, d, first);
      CanFreeRest(s, t, d, first, n);
      UnmapRunIsExact(t, d, first + 1, n - 1);
      UnmapsExactlyChain(s, t, UnmapRun(t, d, first + 1, n - 1), d, first, n - 1);
    }
  }

  lemma FirstCanGo(s: State, d: Frame, first: int, n: nat)
    requires n > 0 && CanFree(s, d, first, n)
    ensures CanUnmap(s, d, first) && IsPlace(s, d, first)
  {
  }

  lemma NothingUnmapped(s: State, d: Frame, first: int)
    ensures UnmapsExactly(s, s, d, first, 0)
  {
  }

  /** `mfree_page` of mapped pages leaves a settled state in which exactly those pages are gone. */
  lemma MFreePageUnmapsItsRun(s: State, d: Frame, first: int, n: nat) returns (t: State)
    requires CanFree(s, d, first, n)
    requires Settled(s) && Inv(s)
    ensures t == UnmapRun(s, d, first, n) && IsRange(t, d, first, n)
    ensures MFreePage(s, d, first, n) == Release(t, d, first, n) && UnmapsExactly(s, t, d, first, n)
    ensures MFreePage(s, d, first, n).userBits.Keys == s.userBits.Keys
    ensures Inv(MFreePage(s, d, first, n)) && Settled(MFreePage(s, d, first, n))
  {
    hide Inv, UnmapRun, CanUnmap;
    t := UnmapRun(s, d, first, n);
    UnmapRunIsExact(s, d, first, n);
    ReleaseKeepsInv(t, d, first, n);
    hide EntriesExcept;
    assert forall f :: f in t.own ==> t.own[f] == s.own[f];
  }

  /** Pool bits follow from the roles of frames. */
  lemma PoolsFollowOwners(s: State, t: State)
    requires SameBits(s.(kernelBits := t.kernelBits, userBits := t.userBits), t)
    requires Inv(s) && Inv(t)
    ensures (forall f: Frame :: InUserPool(s, f) ==> (f in s.own <==> f in t.own)) ==> t.userPool == s.userPool
    ensures (forall f: Frame :: InKernelPool(s, f) ==> (f in s.own <==> f in t.own)) ==> t.kernelPool == s.kernelPool
  {
    hide DirsOk, KernelOk, UserOk, TablesOk, PendingOk, RoleOk, RightsOk;
    if forall f: Frame :: InUserPool(s, f) ==> (f in s.own <==> f in t.own) {
      forall i | 0 <= i < |s.userPool| ensures s.userPool[i] == t.userPool[i] {
        var f: Frame := s.userStart + i;
        assert f in s.own <==> PoolBit(s, f);
        assert f in t.own <==> PoolBit(t, f);
      }
    }
    if forall f: Frame :: InKernelPool(s, f) ==> (f in s.own <==> f in t.own) {
      forall i | 0 <= i < |s.kernelPool| ensures s.kernelPool[i] == t.kernelPool[i] {
        var f: Frame := POOL_START + i;
        assert f in s.own <==> PoolBit(s, f);
        assert f in t.own <==> PoolBit(t, f);
      }
    }
  }

  /** `w` is `s` again, up to page tables of space `d` that stay allocated: the same virtual
      bitmaps and user pool, the same entries for all mapped pages and none mapped besides, the
      same contents; for the kernel heap, where no table is ever added, the same frames in use. */
  ghost predicate UndoneUpToTables(s: State, w: State, d: Frame) {
    && w.kernelBits == s.kernelBits && w.userBits == s.userBits && w.userPool == s.userPool
    && (d == BOOT_DIR ==> w.kernelPool == s.kernelPool && w.own == s.own)
    && (forall e, vp :: IsPlace(s, e, vp) ==>
          if Present(At(s.mem, e, vp)) then At(w.mem, e, vp) == At(s.mem, e, vp) else !Present(At(w.mem, e, vp)))
    && (forall f :: f in s.own ==> f in w.own && w.own[f] == s.own[f])
    && (forall f :: f in w.own && f !in s.own ==> w.own[f].UserTable? && w.own[f].dir == d)
    && DataKept(s, w)
  }

  /** `mfree_page` undoes `malloc_page` up to retained page tables. */
  lemma FreeUndoesMalloc(s: State, dir: Frame, pf: PoolFlag, cnt: nat)
    requires cnt > 0 && IsDir(s, dir) && (pf == PF_USER ==> dir in s.userBits)
    requires MallocPage(s, dir, pf, cnt).Done?
    requires Settled(s) && Inv(s)
    ensures var d := PoolSpace(dir, pf);
            UndoneUpToTables(s, MFreePage(MallocPage(s, dir, pf, cnt).value, d, FirstRun(s, d, cnt), cnt), d)
  {
    hide Inv, Settled, MallocPage, MFreePage, MapsExactly, UnmapsExactly, UndoneUpToTables, FirstRun, IsRange, CanFree;
    hide Release, Reserve;
    var d := PoolSpace(dir, pf);
    var first := FirstRun(s, d, cnt);
    FirstRunNotNull(s, dir, pf, cnt);
    FirstRunIsRange(s, d, cnt);
    var u := MallocPageMapsItsRun(s, dir, pf, cnt);
    FreshCanBeFreed(s, u, d, first, cnt);
    var t := MFreePageUnmapsItsRun(u, d, first, cnt);
    MappedThenUnmapped(s, u, t, d, first, cnt);
  }

  lemma FreshCanBeFreed(s: State, u: State, d: Frame, first: int, n: nat)
    requires IsRange(s, d, first, n) && MapsExactly(Reserve(s, d, first, n), u, d, first, n)
    requires Inv(s) && Inv(u)
    ensures CanFree(u, d, first, n)
  {
    hide Inv, EntriesExcept, OwnGrows, DataKept, Present, FrameOf, KEntry, UEntry;
    BootIsNoUserDir(s);
    SizesOf(s);
    DirsHaveRoles(s);
    var r := Reserve(s, d, first, n);
    assert u.userBits.Keys == s.userBits.Keys && |u.kernelBits| == |s.kernelBits|;
    forall vp | first <= vp < first + n ensures CanUnmap(u, d, vp) && IsPlace(u, d, vp) {
      assert IsPlace(r, d, vp);
      PresentHasPooledFrame(u, d, vp);
      PresentIsReady(u, d, vp);
    }
  }

  lemma DirsHaveRoles(s: State)
    requires Inv(s)
    ensures forall e :: e in s.userBits ==> e in s.own
  {
    hide KernelOk, UserOk, TablesOk, OwnOk, PendingOk, KernelHalf, RightsOk;
  }

  lemma PresentHasPooledFrame(s: State, d: Frame, vp: int)
    requires IsSite(s, d, vp) && Present(At(s.mem, d, vp))
    requires Inv(s)
    ensures var f := FrameOf(At(s.mem, d, vp)); InKernelPool(s, f) || InUserPool(s, f)
  {
    var f := FrameOf(At(s.mem, d, vp));
    assert f in s.own by { hide OwnOk, TablesOk, DirsOk, RightsOk; }
    hide KernelOk, UserOk, TablesOk, DirsOk, KEntry, UEntry, RightsOk;
    assert PoolBit(s, f);
  }

  lemma FirstRunNotNull(s: State, dir: Frame, pf: PoolFlag, cnt: nat)
    requires MallocPage(s, dir, pf, cnt).Done?
    ensures FirstRun(s, PoolSpace(dir, pf), cnt) >= FirstPage(PoolSpace(dir, pf))
  {
    hide MapRun;
  }

  /** Pages whose bits are clear have no frame. */
  lemma ClearBitsHaveNoRole(s: State, d: Frame, first: int, n: nat)
    requires IsRange(s, d, first, n) && Bitmaps.Clear(BitsOf(s, d), first - FirstPage(d), n)
    requires Inv(s)
    ensures forall vp :: first <= vp < first + n ==> !Present(At(s.mem, d, vp))
    ensures forall f :: f in s.own ==> !IsRoleIn(s.own[f], d, first, n)
  {
    BootIsNoUserDir(s);
    assert forall vp :: first <= vp < first + n ==> !Present(At(s.mem, d, vp)) by {
      hide OwnOk, TablesOk, DirsOk, RightsOk;
      forall vp | first <= vp < first + n ensures !Present(At(s.mem, d, vp)) {
        assert !BitsOf(s, d)[vp - FirstPage(d)];
      }
    }
    hide KernelOk, UserOk, TablesOk, DirsOk, RightsOk;
    forall f | f in s.own ensures !IsRoleIn(s.own[f], d, first, n) {
      assert RoleOk(s, f);
    }
  }

  lemma UserTablesAreOfUsers(s: State)
    requires Inv(s)
    ensures forall f :: f in s.own && s.own[f].UserTable? ==> s.own[f].dir != BOOT_DIR && f < s.userStart
  {
    BootIsNoUserDir(s);
    hide KernelOk, UserOk, TablesOk, DirsOk, KEntry, UEntry, RightsOk;
    assert forall f :: f in s.own ==> RoleOk(s, f);
  }

  lemma BitsRestored(s: State, u: State, t: State, d: Frame, first: int, n: nat)
    requires IsRange(s, d, first, n) && Bitmaps.Clear(BitsOf(s, d), first - FirstPage(d), n)
    requires SameBits(Reserve(s, d, first, n), u) && SameBits(u, t) && IsRange(t, d, first, n)
    ensures var w := Release(t, d, first, n);
      w.kernelBits == s.kernelBits && w.userBits == s.userBits
          && SameBits(s.(kernelBits := w.kernelBits, userBits := w.userBits), w)
  {
    var w := Release(t, d, first, n);
    assert BitsOf(w, d) == BitsOf(s, d);
    assert w.userBits.Keys == s.userBits.Keys;
  }

  lemma DataBack(s: State, u: State, t: State, d: Frame, first: int, n: nat)
    requires u.userBits.Keys == s.userBits.Keys && t.userBits.Keys == s.userBits.Keys
    requires forall f: Frame :: f in s.own && f !in s.userBits && (s.own[f].KernelPage? || s.own[f].UserPage?) ==>
             u.mem[f] == s.mem[f]
    requires forall f: Frame :: IsData(t, f) ==> t.mem[f] == u.mem[f]
    requires forall f :: f in s.own ==> f in t.own && t.own[f] == s.own[f]
    ensures forall f: Frame :: IsData(s, f) ==> t.mem[f] == s.mem[f]
  {
    assert forall f: Frame :: IsData(s, f) ==> IsData(t, f);
  }

  /** Entries outside the run never changed; those inside are absent before and after. */
  lemma EntriesBack(s: State, u: State, t: State, d: Frame, first: int, n: nat)
    requires u.userBits.Keys == s.userBits.Keys
    requires EntriesExcept(s, u.mem, d, first, n) && EntriesExcept(u, t.mem, d, first, n)
    requires forall vp :: first <= vp < first + n ==> !Present(At(s.mem, d, vp)) && !Present(At(t.mem, d, vp))
    ensures forall e, vp :: IsPlace(s, e, vp) ==>
              if Present(At(s.mem, e, vp)) then At(t.mem, e, vp) == At(s.mem, e, vp) else !Present(At(t.mem, e, vp))
  {
    hide KEntry, UEntry, Present, FrameOf;
    forall e, vp | IsPlace(s, e, vp)
      ensures if Present(At(s.mem, e, vp)) then At(t.mem, e, vp) == At(s.mem, e, vp) else !Present(At(t.mem, e, vp))
    {
      if !(e == d && first <= vp < first + n) {
        assert IsPlace(u, e, vp);
        assert At(u.mem, e, vp) == At(s.mem, e, vp) && At(t.mem, e, vp) == At(u.mem, e, vp);
      }
    }
  }

  lemma OwnersBack(s: State, u: State, t: State, d: Frame, first: int, n: nat)
    requires OwnGrows(s, u, d, first, n)
    requires forall f :: f in s.own ==> !IsRoleIn(s.own[f], d, first, n)
    requires forall f :: f in t.own <==> f in u.own && !IsRoleIn(u.own[f], d, first, n)
    requires forall f :: f in t.own ==> t.own[f] == u.own[f]
    ensures forall f :: f in s.own ==> f in t.own && t.own[f] == s.own[f]
    ensures forall f :: f in t.own && f !in s.own ==> u.own[f].UserTable? && t.own[f] == u.own[f] && t.own[f].dir == d
  {
  }

  lemma ContentsBack(s: State, u: State, t: State, d: Frame, first: int, n: nat)
    requires IsRange(s, d, first, n) && IsRange(t, d, first, n)
    requires MapsExactly(Reserve(s, d, first, n), u, d, first, n) && UnmapsExactly(u, t, d, first, n)
    requires forall f :: f in s.own ==> f in t.own && t.own[f] == s.own[f]
    ensures DataKept(s, Release(t, d, first, n))
  {
    hide EntriesExcept, OwnGrows, KEntry, UEntry, Present, FrameOf;
    var r := Reserve(s, d, first, n);
    assert forall f: Frame :: IsData(s, f) ==> IsData(r, f);
    DataBack(s, u, t, d, first, n);
  }

  lemma MappedThenUnmapped(s: State, u: State, t: State, d: Frame, first: int, n: nat)
    requires IsRange(s, d, first, n) && Bitmaps.Clear(BitsOf(s, d), first - FirstPage(d), n)
    requires MapsExactly(Reserve(s, d, first, n), u, d, first, n) && UnmapsExactly(u, t, d, first, n)
    requires IsRange(t, d, first, n)
    requires Inv(u) && Inv(Release(t, d, first, n))
    requires Inv(s)
    ensures UndoneUpToTables(s, Release(t, d, first, n), d)
  {
    hide Inv, KEntry, UEntry, Present, FrameOf;
    var r, w := Reserve(s, d, first, n), Release(t, d, first, n);
    ClearBitsHaveNoRole(s, d, first, n);
    UserTablesAreOfUsers(u);
    BitsRestored(s, u, t, d, first, n);
    assert r.mem == s.mem && r.own == s.own && r.userBits.Keys == s.userBits.Keys && w.mem == t.mem && w.own == t.own;
    assert u.userBits == r.userBits && t.userBits == u.userBits;
    assert OwnGrows(s, u, d, first, n) && EntriesExcept(s, u.mem, d, first, n);
    OwnersBack(s, u, t, d, first, n);
    EntriesBack(s, u, t, d, first, n);
    ContentsBack(s, u, t, d, first, n);
    hide EntriesExcept, DataKept, OwnGrows, At, Reserve, Release, IsRange;
    PoolsFollowOwners(s, w);
    assert forall f: Frame :: InUserPool(s, f) ==> (f in s.own <==> f in w.own);
    assert d == BOOT_DIR ==> w.own == s.own;
  }

  // ---------- what the methods that run these functions rely on ----------

  /** The outcome of `vaddr_get`. */
  ghost predicate RunReserved(s: State, d: Frame, pf: PoolFlag, cnt: nat, r: Outcome<Word>, t: State) {
    var first := FirstRun(s, d, cnt);
    if IsFull(BitsOf(s, d)) then r == Halt
    else if first < FirstPage(d) then r == Null && t == s
    else if pf == PF_USER && first >= KERNEL_BASE - 1 then r == Halt
    else IsRange(s, d, first, cnt) && r.Done? && r.value == first * PAGE_SIZE && t == Reserve(s, d, first, cnt)
  }

  /** The outcome of `vaddr_get` when the scan has run past the end of the map: a run whose last page
      lies just behind the space. */
  ghost predicate RunOverrun(s: State, d: Frame, pf: PoolFlag, cnt: nat, r: Outcome<Word>, t: State) {
    var first := FirstPage(d) + |BitsOf(s, d)| - (cnt - 1);
    && t == WithBits(s, d, SetRange(BitsOf(s, d), |BitsOf(s, d)| - (cnt - 1), cnt, true),
        s.pending + Range(d, first, cnt))
    && if pf == PF_USER && first >= KERNEL_BASE - 1 then r == Halt else r.Done? && r.value == first * PAGE_SIZE
  }

  lemma NoRunReserved(s: State, d: Frame, pf: PoolFlag, cnt: nat, r: Outcome<Word>)
    requires if IsFull(BitsOf(s, d)) then r == Halt else FirstRun(s, d, cnt) < FirstPage(d) && r == Null
    ensures RunReserved(s, d, pf, cnt, r, s)
  {
  }

  lemma ThisRunReserved(s: State, d: Frame, pf: PoolFlag, cnt: nat, r: Outcome<Word>, t: State)
    requires cnt > 0 && IsDir(s, d) && BOOT_DIR !in s.userBits && Sizes(s)
    requires !IsFull(BitsOf(s, d)) && Bitmaps.FirstFit(BitsOf(s, d), cnt) != -1
    requires if pf == PF_USER && FirstRun(s, d, cnt) >= KERNEL_BASE - 1 then r == Halt
             else r.Done? && r.value == FirstRun(s, d, cnt) * PAGE_SIZE
                  && t == WithBits(s, d, SetRange(BitsOf(s, d), Bitmaps.FirstFit(BitsOf(s, d), cnt), cnt, true),
                      s.pending + Range(d, FirstRun(s, d, cnt), cnt))
    ensures RunReserved(s, d, pf, cnt, r, t)
  {
  }

  lemma ThisRunOverrun(s: State, d: Frame, pf: PoolFlag, cnt: nat, r: Outcome<Word>, t: State)
    requires cnt > 0
    requires var bits := BitsOf(s, d);
             var first := FirstPage(d) + |bits| - (cnt - 1);
             && (if pf == PF_USER && first >= KERNEL_BASE - 1 then r == Halt
                 else r.Done? && r.value == first * PAGE_SIZE)
             && t == WithBits(s, d, SetRange(bits, |bits| - (cnt - 1), cnt, true), s.pending + Range(d, first, cnt))
    ensures RunOverrun(s, d, pf, cnt, r, t)
  {
  }

  /** The outcome of `malloc_page`. */
  ghost predicate PagesMalloced(s: State, dir: Frame, pf: PoolFlag, cnt: nat, r: Outcome<Word>, t: State) {
    match MallocPage(s, dir, pf, cnt)
    case Halt => r == Halt
    case Null => r == Null && t == s
    case Done(u) => r.Done? && r.value == FirstRun(s, PoolSpace(dir, pf), cnt) * PAGE_SIZE && t == u
  }

  /** `malloc_page` is its loop on the reserved run, unless it stops or finds no run before that. */
  lemma MallocPageIsRun(s: State, dir: Frame, pf: PoolFlag, cnt: nat)
    requires cnt > 0 && !IsFull(BitsOf(s, PoolSpace(dir, pf)))
             && IsRange(s, PoolSpace(dir, pf), FirstRun(s, PoolSpace(dir, pf), cnt), cnt)
    requires !(pf == PF_USER && FirstRun(s, PoolSpace(dir, pf), cnt) >= KERNEL_BASE - 1)
    ensures var d, first := PoolSpace(dir, pf), FirstRun(s, PoolSpace(dir, pf), cnt);
            MallocPage(s, dir, pf, cnt) == MapRun(Reserve(s, d, first, cnt), dir, pf, first, cnt)
  {
    hide MapRun, Reserve, IsFull;
  }

  lemma ReservedIsPending(s: State, dir: Frame, pf: PoolFlag, first: int, cnt: nat)
    requires IsDir(s, dir) && (pf == PF_USER ==> dir in s.userBits) && IsRange(s, PoolSpace(dir, pf), first, cnt)
    requires Sizes(s) && BOOT_DIR !in s.userBits
    ensures IsPendingRun(Reserve(s, PoolSpace(dir, pf), first, cnt), dir, pf, first, cnt)
    ensures Reserve(s, PoolSpace(dir, pf), first, cnt).userBits.Keys == s.userBits.Keys
  {
  }

  lemma MapRunStep(t: State, dir: Frame, pf: PoolFlag, vp: int, left: nat)
    requires left > 0
    ensures MapRun(t, dir, pf, vp, left) == match OneMapped(t, dir, pf, vp)
              case Done(u) => MapRun(u, dir, pf, vp + 1, left - 1)
              case _ => Halt
    ensures IsFull(PoolOf(t, pf)) ==> OneMapped(t, dir, pf, vp).Halt?
    ensures !IsFull(PoolOf(t, pf)) && 0 <= FirstFree(t, pf) < FRAMES ==>
              OneMapped(t, dir, pf, vp) == PageAdded(Take(t, FirstFree(t, pf)), dir, vp, FirstFree(t, pf))
  {
  }

  lemma MapRunEnds(t: State, dir: Frame, pf: PoolFlag, vp: int)
    ensures MapRun(t, dir, pf, vp, 0) == Done(t)
  {
  }

  lemma ReservedFrameCanBeMapped(t: State, dir: Frame, pf: PoolFlag, vp: VPage, left: nat, f: Frame)
    requires left > 0 && IsPendingRun(t, dir, pf, vp, left) && !IsFull(PoolOf(t, pf)) && f == FirstFree(t, pf)
    requires Inv(t)
    ensures CanWriteEntry(Take(t, f), dir, vp * PAGE_SIZE, f * PAGE_SIZE)
  {
    hide Inv, CanWriteEntry, IsFull;
    SizesOf(t);
    FirstFreeIsFree(t, pf);
    TakeKeepsInv(t, f);
    ReservedCanBeMapped(Take(t, f), dir, vp * PAGE_SIZE, f * PAGE_SIZE);
  }

  lemma RoundDone(t: State, dir: Frame, pf: PoolFlag, vp: int, left: nat, u: State)
    requires left > 0 && IsPendingRun(t, dir, pf, vp, left) && OneMapped(t, dir, pf, vp) == Done(u)
    requires Inv(t)
    ensures Inv(u) && IsPendingRun(u, dir, pf, vp + 1, left - 1) && SameBits(t, u)
  {
    hide Inv, MapsExactly;
    assert CanMapOne(t, dir, pf, vp);
    var f, ready, u' := RoundKeepsInv(t, dir, pf, vp);
    RoundIsExact(t, dir, pf, vp, f, ready, u');
    NextRun(t, u, dir, pf, vp, left);
    MapsExactlyKeepsBits(t, u, SpaceOf(dir, vp), vp, 1);
  }

  lemma MapsExactlyKeepsBits(t: State, u: State, d: Frame, first: int, n: nat)
    requires MapsExactly(t, u, d, first, n)
    ensures SameBits(t, u)
  {
  }

  /** `pfree` and `page_table_pte_remove` find the page's table and its frame in a pool. */
  ghost predicate CanClearEntry(s: State, dir: Frame, d: Frame, vaddr: Word) {
    var vp := vaddr / PAGE_SIZE;
    && Sizes(s) && SelfMapped(s.mem, dir) && vaddr % PAGE_SIZE == 0
    && vp / ENTRIES == PdeIdx(vaddr) && vp % ENTRIES == PteIdx(vaddr)
    && Present(s.mem[dir][PdeIdx(vaddr)])
    && Entry(s.mem, dir, vp) == At(s.mem, d, vp)
    && TableOf(s.mem, d, vp) == FrameOf(s.mem[dir][PdeIdx(vaddr)])
    && var f := FrameOf(At(s.mem, d, vp));
       if d == BOOT_DIR then InKernelPool(s, f) else InUserPool(s, f)
  }

  lemma MappedPageCanBeCleared(s: State, dir: Frame, d: Frame, first: int, n: nat)
    requires n > 0 && IsDir(s, dir) && (d == BOOT_DIR || d == dir) && 0 <= first < FRAMES
    requires CanFree(s, d, first, n)
    requires Inv(s)
    ensures CanClearEntry(s, dir, d, first * PAGE_SIZE)
  {
    hide Inv, Present, FrameOf, CanUnmap, CanFree, CanClearEntry, Sizes, IsSite;
    FirstCanGo(s, d, first, n);
    DirIsSelfMapped(s, dir);
    BootIsNoUserDir(s);
    SizesOf(s);
    MappedFrameIsPooled(s, d, first);
    EntryIsInTable(s, dir, d, first);
  }

  lemma MappedFrameIsPooled(s: State, d: Frame, vp: int)
    requires CanUnmap(s, d, vp) && IsPlace(s, d, vp)
    requires Inv(s)
    ensures var f := FrameOf(At(s.mem, d, vp)); if d == BOOT_DIR then InKernelPool(s, f) else InUserPool(s, f)
  {
    hide Inv, Present, FrameOf, CanUnmap, At, RoleOk;
    var f := UnmapHasFacts(s, d, vp);
    BootIsNoUserDir(s);
    RoleIsRight(s, f);
  }

  lemma RoleIsRight(s: State, f: Frame)
    requires f in s.own
    requires Inv(s)
    ensures s.own[f].KernelPage? ==> InKernelPool(s, f)
    ensures s.own[f].UserPage? ==> InUserPool(s, f)
  {
    hide DirsOk, KernelOk, UserOk, TablesOk, PendingOk, KEntry, UEntry, RightsOk;
    assert RoleOk(s, f);
  }

  lemma EntryIsInTable(s: State, dir: Frame, d: Frame, vp: int)
    requires CanUnmap(s, d, vp) && IsPlace(s, d, vp) && 0 <= vp < FRAMES && (d == BOOT_DIR || d == dir)
             && BOOT_DIR !in s.userBits
    requires Sizes(s) && SelfMapped(s.mem, dir) && KernelHalf(s.mem, dir)
    requires var f := FrameOf(At(s.mem, d, vp)); if d == BOOT_DIR then InKernelPool(s, f) else InUserPool(s, f)
    ensures CanClearEntry(s, dir, d, vp * PAGE_SIZE)
  {
    PageOfTable(vp * PAGE_SIZE);
    hide PdeIdx, PteIdx;
  }

  lemma CanFreeIsVPage(s: State, d: Frame, vp: int, n: nat)
    requires n > 0 && CanFree(s, d, vp, n)
    ensures 0 <= vp < FRAMES
  {
    hide CanUnmap, IsPlace;
  }

  lemma UnmapRunStarts(s: State, d: Frame, first: int, n: nat)
    requires CanFree(s, d, first, n)
    ensures SameBits(s, s) && IsRange(s, d, first, n)
  {
    hide CanUnmap, IsPlace;
  }

  lemma UnmapRound(s: State, d: Frame, vp: int, n: nat)
    requires n > 0 && CanFree(s, d, vp, n)
    requires Inv(s)
    ensures var t := Unmap(s, d, vp);
            Inv(t) && SameBits(s, t) && CanFree(t, d, vp + 1, n - 1)
                && UnmapRun(t, d, vp + 1, n - 1) == UnmapRun(s, d, vp, n)
  {
    hide Inv, Unmap, CanUnmap;
    FirstCanGo(s, d, vp, n);
    UnmapKeepsInv(s, d, vp);
    UnmapIsExact(s, d, vp);
    CanFreeRest(s, Unmap(s, d, vp), d, vp, n);
  }

  lemma UnmapRunEnds(s: State, d: Frame, vp: int)
    ensures UnmapRun(s, d, vp, 0) == s
  {
  }
}
