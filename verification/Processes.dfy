/** New page directories and the copy loop of fork, run on the machine
    (v1-src/userprog/process.c:47-88, v1-src/userprog/fork.c:42-69, v1-src/kernel/memory.c:459-467). */
module Processes {
  import opened Common
  import opened Paging
  import opened Vm
  import opened Allocation
  import opened AddressSpaces
  import opened Fork
  import opened Gains
  import Bitmaps

  /** The frame of a heap page. */
  function HeapFrame(s: State, vaddr: Word): Frame {
    FrameOf(KEntry(s.mem, vaddr / PAGE_SIZE))
  }

  predicate IsHeapAddr(s: State, vaddr: Word) {
    vaddr % PAGE_SIZE == 0 && InHeap(s, vaddr / PAGE_SIZE)
  }

  /** `vaddr` is a mapped heap page in frame f, which holds data. */
  ghost predicate IsHeapPage(s: State, vaddr: Word, f: Frame) {
    && IsHeapAddr(s, vaddr) && IsKernelVp(vaddr / PAGE_SIZE)
    && Present(KEntry(s.mem, vaddr / PAGE_SIZE)) && HeapFrame(s, vaddr) == f
    && IsData(s, f) && s.own[f] == KernelPage(vaddr / PAGE_SIZE)
  }

  /** A heap page was mapped to a frame nothing used, and nothing else changed. */
  ghost predicate HeapPageGot(s: State, t: State, vaddr: Word, f: Frame) {
    && SpacesKept(s, t) && t.userBits == s.userBits && |t.kernelBits| == |s.kernelBits|
    && IsHeapPage(t, vaddr, f) && f !in s.own
    && (forall g: Frame :: IsData(s, g) ==> t.mem[g] == s.mem[g])
    && (forall k :: IsKernelVp(k) && k != vaddr / PAGE_SIZE ==> KEntry(t.mem, k) == KEntry(s.mem, k))
  }

  /** The outcome of `get_kernel_pages(1)`: such a page, of zeros. */
  ghost predicate KernelPageGot(s: State, t: State, r: Outcome<Word>) {
    match r
    case Halt => true
    case Null => t == s
    case Done(vaddr) => HeapPageGot(s, t, vaddr, HeapFrame(t, vaddr)) && t.mem[HeapFrame(t, vaddr)] == ZeroPage()
  }

  /** The outcome of `create_page_dir`: such a page, with the kernel half, the self-map slot and
      no user table. */
  ghost predicate DirCreated(s: State, t: State, r: Outcome<Word>) {
    match r
    case Halt => true
    case Null => t == s
    case Done(vaddr) =>
      && HeapPageGot(s, t, vaddr, HeapFrame(t, vaddr))
      && KernelHalf(t.mem, HeapFrame(t, vaddr)) && LowerHalfEmpty(t.mem, HeapFrame(t, vaddr))
  }

  /** Through any directory the hardware reaches a heap page's frame. */
  lemma HeapWalk(s: State, dir: Frame, vaddr: Word, f: Frame, off: nat)
    requires IsDir(s, dir) && IsHeapPage(s, vaddr, f) && off < PAGE_SIZE
    requires Inv(s)
    ensures vaddr + off < 0x1_0000_0000 && Walk(s.mem, dir, vaddr + off) == Some(f * PAGE_SIZE + off)
    ensures SelfMapped(s.mem, dir) && Present(s.mem[dir][PdeIdx(vaddr)])
    ensures FrameOf(Entry(s.mem, dir, vaddr / PAGE_SIZE)) == f && vaddr % PAGE_SIZE == 0
  {
    hide Inv;
    DirIsSelfMapped(s, dir);
    assert (vaddr + off) / PAGE_SIZE == vaddr / PAGE_SIZE && (vaddr + off) % PAGE_SIZE == off;
    KernelHalfShared(s, dir, vaddr);
    WalkIsEntry(s.mem, dir, vaddr + off);
    PageOfTable(vaddr);
  }

  /** The last page of the address space is the active directory. */
  lemma DirWalk(s: State, dir: Frame, i: Index)
    requires SelfMapped(s.mem, dir)
    ensures Walk(s.mem, dir, 0xffff_f000 + 4 * i) == Some(dir * PAGE_SIZE + 4 * i)
  {
  }

  lemma HeapEntryHasRole(s: State, vp: int)
    requires InHeap(s, vp) && Present(KEntry(s.mem, vp))
    requires Inv(s)
    ensures var f := FrameOf(KEntry(s.mem, vp)); f in s.own && s.own[f] == KernelPage(vp) && IsKernelVp(vp)
  {
    hide OwnOk, TablesOk, DirsOk, UserOk, PendingOk, KEntry, RightsOk;
  }

  lemma MallocedPageIsHeapPage(s: State, u: State, first: int)
    requires IsRange(s, BOOT_DIR, first, 1) && MapsExactly(Reserve(s, BOOT_DIR, first, 1), u, BOOT_DIR, first, 1)
    requires Inv(s) && Inv(u)
    ensures 0 <= first * PAGE_SIZE < 0x1_0000_0000
    ensures var v: Word := first * PAGE_SIZE; IsHeapPage(u, v, HeapFrame(u, v)) && HeapFrame(u, v) !in s.own
  {
    hide Inv, EntriesExcept, OwnGrows, DataKept, Present, FrameOf, KEntry;
    BootIsNoUserDir(s);
    DirsHaveRoles(s);
    var r := Reserve(s, BOOT_DIR, first, 1);
    assert IsPlace(r, BOOT_DIR, first) && At(u.mem, BOOT_DIR, first) == KEntry(u.mem, first);
    assert InHeap(u, first);
    HeapEntryHasRole(u, first);
  }

  lemma NoPageGot(s: State, r: Outcome<Word>)
    requires !r.Done?
    ensures KernelPageGot(s, s, r)
    ensures forall t :: r.Halt? ==> KernelPageGot(s, t, r)
  {
  }

  /** A malloced heap page that is then filled. */
  lemma FilledPageGot(s: State, u: State, first: int, vaddr: Word, f: Frame, page: Page)
    requires IsRange(s, BOOT_DIR, first, 1) && MapsExactly(Reserve(s, BOOT_DIR, first, 1), u, BOOT_DIR, first, 1)
    requires vaddr == first * PAGE_SIZE && IsHeapPage(u, vaddr, f) && f !in s.own
    requires Settled(u) && Inv(s) && Inv(u)
    ensures var t := WriteData(u, f, page);
            Inv(t) && Settled(t) && HeapPageGot(s, t, vaddr, f) && HeapFrame(t, vaddr) == f
  {
    hide Inv, KEntry, UEntry, Present, FrameOf, SpacesKept, OwnGrows;
    var t := WriteData(u, f, page);
    WriteDataKeepsInv(u, f, page);
    HeapMappingKeepsSpaces(s, u, first, 1);
    HeapWriteKeepsSpaces(u, f, page);
    SpacesKeptTrans(s, u, t);
    var r := Reserve(s, BOOT_DIR, first, 1);
    assert forall g: Frame :: IsData(s, g) ==> IsData(r, g) && g in s.own;
    hide EntriesExcept, DataKept;
  }

  lemma PageGotFacts(s: State, t: State, vaddr: Word) returns (f: Frame)
    requires KernelPageGot(s, t, Done(vaddr))
    ensures f == HeapFrame(t, vaddr) && HeapPageGot(s, t, vaddr, f) && IsHeapPage(t, vaddr, f) && t.mem[f] == ZeroPage()
    ensures t.userBits == s.userBits
  {
    f := HeapFrame(t, vaddr);
  }

  method GetKernelPage(m: Machine) returns (r: Outcome<Word>)
    requires Settled(m.S()) && m.Valid()
    modifies m
    ensures m.cr3 == old(m.cr3) && m.current == old(m.current)
    ensures KernelPageGot(old(m.S()), m.S(), r) && !r.Null?
    ensures if r.Halt? then m.Exhausted() else m.Valid() && Settled(m.S())
    ensures r.Done? ==> !IsFull(old(m.kernelBits)) && m.kernelBits == AfterOne(old(m.kernelBits))
    ensures r.Done? ==> Gained(old(m.S()), m.S(), {r.value / PAGE_SIZE}, {})
  {
    hide Inv, Settled, MapRun, MapsExactly, Reserve, IsRange, IsHeapPage, HeapPageGot, SpacesKept;
    hide KEntry, UEntry, Present, FrameOf, IsFull, Sizes, AfterOne, FirstRun, HeapFrame, Bitmaps.ScanExact;
    hide Bitmaps.FirstFit, Gained;
    ghost var s := m.S();
    OneIsExact(s.kernelBits);
    OneIsFound(s, m.cr3);
    r := m.MallocPage(PF_KERNEL, 1, false);
    if r.Done? {
      var vaddr := r.value;
      ghost var u := MallocPageMapsItsRun(s, m.cr3, PF_KERNEL, 1);
      ghost var first := FirstRun(s, BOOT_DIR, 1);
      MallocedPageIsHeapPage(s, u, first);
      ghost var f := HeapFrame(u, vaddr);
      HeapWalk(u, m.cr3, vaddr, f, 0);
      m.ClearPage(vaddr);
      FilledPageGot(s, u, first, vaddr, f, ZeroPage());
      BitsAfterOne(s, u);
      ClearedPageGained(s, u, f, vaddr);
    } else {
      NoPageGot(s, r);
    }
  }

  lemma ClearedPageGained(s: State, u: State, f: Frame, vaddr: Word)
    requires IsRange(s, BOOT_DIR, FirstRun(s, BOOT_DIR, 1), 1) && vaddr == FirstRun(s, BOOT_DIR, 1) * PAGE_SIZE
    requires MapsExactly(Reserve(s, BOOT_DIR, FirstRun(s, BOOT_DIR, 1), 1), u, BOOT_DIR, FirstRun(s, BOOT_DIR, 1), 1)
    requires IsHeapPage(u, vaddr, f)
    requires Inv(s) && Inv(u)
    ensures Gained(s, WriteData(u, f, ZeroPage()), {vaddr / PAGE_SIZE}, {})
  {
    hide Inv, Gained, MapsExactly, Reserve, FirstRun;
    WriteDataKeepsInv(u, f, ZeroPage());
    FilledIsGained(s, u, WriteData(u, f, ZeroPage()), 1);
    assert Run(FirstRun(s, BOOT_DIR, 1), 1) == {vaddr / PAGE_SIZE};
  }

  /** One page is found unless the bitmap is full. */
  lemma OneIsFound(s: State, dir: Frame)
    ensures !MallocPage(s, dir, PF_KERNEL, 1).Null?
  {
    hide OneMapped, Reserve;
    if !IsFull(s.kernelBits) {
      FirstFitOfRoom(s.kernelBits);
    }
  }

  lemma OneIsExact(bits: seq<bool>)
    ensures forall guard :: Bitmaps.ScanExact(bits, guard, 1)
  {
  }

  lemma BitsAfterOne(s: State, u: State)
    requires IsRange(s, BOOT_DIR, FirstRun(s, BOOT_DIR, 1), 1)
    requires MapsExactly(Reserve(s, BOOT_DIR, FirstRun(s, BOOT_DIR, 1), 1), u, BOOT_DIR, FirstRun(s, BOOT_DIR, 1), 1)
    ensures u.kernelBits == AfterOne(s.kernelBits)
  {
    hide EntriesExcept, OwnGrows, DataKept;
  }

  // ---------- several heap pages ----------

  // The pages of a user bitmap of 94199 bytes.
  const BITMAP_PAGES := 23

  /** The bitmap after `get_kernel_pages(1)`. */
  function AfterOne(bits: seq<bool>): seq<bool> { SetRange(bits, Bitmaps.FirstFit(bits, 1), 1, true) }

  /** n heap pages were mapped to frames nothing used, all zero, and nothing else changed. */
  ghost predicate HeapRunGot(s: State, t: State, vaddr: Word, n: nat) {
    var first := vaddr / PAGE_SIZE;
    && SpacesKept(s, t) && t.userBits == s.userBits && |t.kernelBits| == |s.kernelBits|
    && (forall g: Frame :: IsData(s, g) ==> t.mem[g] == s.mem[g])
    && (forall vp :: first <= vp < first + n ==>
          && InHeap(t, vp) && Present(KEntry(t.mem, vp))
          && FrameOf(KEntry(t.mem, vp)) !in s.own && t.mem[FrameOf(KEntry(t.mem, vp))] == ZeroPage())
    && (forall k :: IsKernelVp(k) && !(first <= k < first + n) ==> KEntry(t.mem, k) == KEntry(s.mem, k))
  }

  /** The memset of `get_kernel_pages`, after the first k of the pages from `first` on. */
  ghost predicate ClearedUpTo(u: State, t: State, first: int, k: int) {
    && t == u.(mem := t.mem) && SameEntries(u, t.mem)
    && (forall g: Frame :: IsData(u, g) && !(exists vp :: first <= vp < first + k && u.own[g] == KernelPage(vp)) ==>
        t.mem[g] == u.mem[g])
    && (forall vp :: first <= vp < first + k ==> t.mem[FrameOf(KEntry(u.mem, vp))] == ZeroPage())
  }

  /** The heap pages of a run that was just mapped. */
  ghost predicate IsHeapRun(s: State, u: State, first: int, n: int) {
    forall vp :: first <= vp < first + n ==>
      && InHeap(u, vp) && IsKernelVp(vp) && Present(KEntry(u.mem, vp))
      && var f := FrameOf(KEntry(u.mem, vp)); f !in s.own && IsData(u, f) && u.own[f] == KernelPage(vp)
  }

  lemma MallocedRunIsHeap(s: State, u: State, first: int, n: nat)
    requires IsRange(s, BOOT_DIR, first, n) && MapsExactly(Reserve(s, BOOT_DIR, first, n), u, BOOT_DIR, first, n)
    requires Inv(s) && Inv(u)
    ensures IsHeapRun(s, u, first, n)
  {
    hide Inv, EntriesExcept, OwnGrows, DataKept, Present, FrameOf, KEntry;
    BootIsNoUserDir(s);
    DirsHaveRoles(s);
    var r := Reserve(s, BOOT_DIR, first, n);
    forall vp | first <= vp < first + n
      ensures InHeap(u, vp) && IsKernelVp(vp) && Present(KEntry(u.mem, vp))
      ensures var f := FrameOf(KEntry(u.mem, vp)); f !in s.own && IsData(u, f) && u.own[f] == KernelPage(vp)
    {
      assert IsPlace(r, BOOT_DIR, vp) && At(u.mem, BOOT_DIR, vp) == KEntry(u.mem, vp);
      assert InHeap(u, vp);
      HeapEntryHasRole(u, vp);
    }
  }

  /** The next page is cleared. */
  lemma ClearStep(s: State, u: State, t: State, first: int, n: int, k: int) returns (f: Frame)
    requires IsHeapRun(s, u, first, n) && ClearedUpTo(u, t, first, k) && 0 <= k < n
    requires Settled(t) && Inv(t)
    ensures f == FrameOf(KEntry(u.mem, first + k)) && IsHeapPage(t, (first + k) * PAGE_SIZE, f)
    ensures var w := WriteData(t, f, ZeroPage()); Inv(w) && Settled(w) && ClearedUpTo(u, w, first, k + 1)
  {
    hide Inv, KEntry, UEntry, Present, FrameOf;
    var vp := first + k;
    f := FrameOf(KEntry(u.mem, vp));
    assert IsKernelVp(vp) && KEntry(t.mem, vp) == KEntry(u.mem, vp);
    assert vp * PAGE_SIZE / PAGE_SIZE == vp;
    assert IsData(t, f) && t.own[f] == KernelPage(vp);
    WriteDataKeepsInv(t, f, ZeroPage());
    var w := WriteData(t, f, ZeroPage());
    forall g: Frame | IsData(u, g) && !(exists v :: first <= v < first + (k + 1) && u.own[g] == KernelPage(v))
      ensures w.mem[g] == u.mem[g]
    {
      assert u.own[g] != KernelPage(vp);
    }
    forall v | first <= v < first + (k + 1) ensures w.mem[FrameOf(KEntry(u.mem, v))] == ZeroPage() {
      assert u.own[FrameOf(KEntry(u.mem, v))] == KernelPage(v);
    }
  }

  lemma ClearBegins(u: State, first: int)
    ensures ClearedUpTo(u, u, first, 0)
  {
  }

  /** Mapped and cleared. */
  lemma ClearEnds(s: State, u: State, t: State, first: int, n: nat, vaddr: Word)
    requires IsRange(s, BOOT_DIR, first, n) && MapsExactly(Reserve(s, BOOT_DIR, first, n), u, BOOT_DIR, first, n)
    requires IsHeapRun(s, u, first, n) && ClearedUpTo(u, t, first, n) && vaddr == first * PAGE_SIZE
    requires Inv(s) && Inv(u)
    ensures HeapRunGot(s, t, vaddr, n)
  {
    hide Inv, KEntry, UEntry, Present, FrameOf, SpacesKept;
    HeapMappingKeepsSpaces(s, u, first, n);
    ClearingKeepsSpaces(u, t, first, n);
    SpacesKeptTrans(s, u, t);
    var r := Reserve(s, BOOT_DIR, first, n);
    assert forall k :: IsKernelVp(k) && !(first <= k < first + n) ==> KEntry(u.mem, k) == KEntry(s.mem, k);
    forall g: Frame | IsData(s, g) ensures t.mem[g] == s.mem[g] {
      OldDataStays(s, u, first, n, g);
    }
  }

  lemma ClearingKeepsSpaces(u: State, t: State, first: int, n: nat)
    requires ClearedUpTo(u, t, first, n)
    requires Inv(u)
    ensures SpacesKept(u, t)
  {
    UserPagesAreData(u);
    hide Inv, KEntry, UEntry, Present, FrameOf;
  }

  lemma OldDataStays(s: State, u: State, first: int, n: nat, g: Frame)
    requires IsRange(s, BOOT_DIR, first, n) && MapsExactly(Reserve(s, BOOT_DIR, first, n), u, BOOT_DIR, first, n)
    requires IsHeapRun(s, u, first, n) && IsData(s, g)
    requires Inv(s) && Inv(u)
    ensures IsData(u, g) && u.mem[g] == s.mem[g]
            && !(exists vp :: first <= vp < first + n && u.own[g] == KernelPage(vp))
  {
    hide Inv, KEntry, UEntry, Present, EntriesExcept;
    var r := Reserve(s, BOOT_DIR, first, n);
    assert IsData(r, g) && u.own[g] == s.own[g] && g in s.own;
    if vp :| first <= vp < first + n && u.own[g] == KernelPage(vp) {
      RoleNamesEntry(u, g, vp);
      assert false;
    }
  }

  /** `get_kernel_pages`; guard is the bit behind the bitmap of the heap. */
  method GetKernelPages(m: Machine, cnt: nat, guard: bool) returns (r: Outcome<Word>)
    requires 0 < cnt < MAX_PAGES && Bitmaps.ScanExact(m.kernelBits, guard, cnt)
    requires Settled(m.S()) && m.Valid()
    modifies m
    ensures m.cr3 == old(m.cr3) && m.current == old(m.current)
    ensures if r.Halt? then m.Exhausted() else m.Valid() && Settled(m.S())
    ensures r.Null? ==> m.S() == old(m.S())
    ensures r.Done? ==> HeapRunGot(old(m.S()), m.S(), r.value, cnt)
    ensures r.Done? ==> Gained(old(m.S()), m.S(), Run(r.value / PAGE_SIZE, cnt), {})
  {
    hide Gained, Inv, Settled, MapRun, MapsExactly, Reserve, IsRange, IsHeapPage, HeapRunGot, IsHeapRun, ClearedUpTo;
    hide KEntry, UEntry, Present, FrameOf, IsFull, Sizes, Bitmaps.ScanExact, SpacesKept;
    ghost var s := m.S();
    r := m.MallocPage(PF_KERNEL, cnt, guard);
    if r.Done? {
      ghost var u := MallocPageMapsItsRun(s, m.cr3, PF_KERNEL, cnt);
      ghost var first := FirstRun(s, BOOT_DIR, cnt);
      MallocedRunIsHeap(s, u, first, cnt);
      ClearBegins(u, first);
      var k := 0;
      while k < cnt
        invariant 0 <= k <= cnt && m.cr3 == old(m.cr3) && m.current == old(m.current)
        invariant Settled(m.S()) && m.Valid() && ClearedUpTo(u, m.S(), first, k)
      {
        ghost var t := m.S();
        RunHasAddress(s, first, cnt, k);
        ghost var f := ClearStep(s, u, t, first, cnt, k);
        HeapWalk(t, m.cr3, (first + k) * PAGE_SIZE, f, 0);
        m.ClearPage(r.value + k * PAGE_SIZE);
        assert m.S() == WriteData(t, f, ZeroPage());
        k := k + 1;
      }
      ClearEnds(s, u, m.S(), first, cnt, r.value);
      ClearedRunGained(s, u, m.S(), cnt);
    }
  }

  lemma ClearedRunGained(s: State, u: State, t: State, n: nat)
    requires n > 0 && IsRange(s, BOOT_DIR, FirstRun(s, BOOT_DIR, n), n)
    requires MapsExactly(Reserve(s, BOOT_DIR, FirstRun(s, BOOT_DIR, n), n), u, BOOT_DIR, FirstRun(s, BOOT_DIR, n), n)
    requires ClearedUpTo(u, t, FirstRun(s, BOOT_DIR, n), n)
    requires Inv(s) && Inv(u)
    ensures Gained(s, t, Run(FirstRun(s, BOOT_DIR, n), n), {})
  {
    hide Inv, Gained, MapsExactly, Reserve, FirstRun;
    FilledIsGained(s, u, t, n);
  }

  lemma RunHasAddress(s: State, first: int, n: nat, k: nat)
    requires IsRange(s, BOOT_DIR, first, n) && k < n
    ensures 0 <= (first + k) * PAGE_SIZE < 0x1_0000_0000
  {
  }

  lemma NoDirCreated(s: State, t: State, r: Outcome<Word>)
    requires KernelPageGot(s, t, r) && !r.Done?
    ensures DirCreated(s, t, r)
  {
  }

  /** Overwriting the fresh page keeps everything but its contents. */
  lemma RefilledPageGot(s: State, t: State, vaddr: Word, f: Frame, page: Page)
    requires HeapPageGot(s, t, vaddr, f)
    requires Settled(t) && Inv(t)
    ensures var u := WriteData(t, f, page);
            Inv(u) && Settled(u) && HeapPageGot(s, u, vaddr, f) && HeapFrame(u, vaddr) == f
  {
    hide Inv, KEntry, UEntry, Present, FrameOf, SpacesKept;
    var u := WriteData(t, f, page);
    WriteDataKeepsInv(t, f, page);
    HeapWriteKeepsSpaces(t, f, page);
    SpacesKeptTrans(s, t, u);
    assert forall g: Frame :: IsData(s, g) ==> g in s.own;
  }

  lemma RefilledPageGained(s: State, t: State, vaddr: Word, f: Frame, page: Page)
    requires Gained(s, t, {vaddr / PAGE_SIZE}, {}) && IsHeapPage(t, vaddr, f)
    requires Inv(s) && Inv(t)
    ensures Gained(s, WriteData(t, f, page), {vaddr / PAGE_SIZE}, {})
  {
    hide Inv, Gained, SameEntries;
    WriteDataKeepsInv(t, f, page);
    DataGains(t, WriteData(t, f, page));
    HeapBound(s);
    NothingMore(s, t, WriteData(t, f, page), {vaddr / PAGE_SIZE}, {});
  }

  lemma NewDirIsCreated(s: State, t: State, u: State, dir: Frame, vaddr: Word, f: Frame)
    requires IsDir(t, dir) && HeapPageGot(s, t, vaddr, f)
    requires u == WriteData(t, f, NewDirPage(t.mem, dir, f)) && HeapPageGot(s, u, vaddr, f) && HeapFrame(u, vaddr) == f
    requires Inv(t)
    ensures DirCreated(s, u, Done(vaddr))
  {
    hide Inv, HeapPageGot, SpacesKept;
    assert IsData(t, f) && t.own[f].KernelPage? by { GotIsData(s, t, vaddr, f); }
    NewDirCanBeAdopted(t, dir, f, NoBits());
  }

  lemma GotIsData(s: State, t: State, vaddr: Word, f: Frame)
    requires HeapPageGot(s, t, vaddr, f)
    ensures IsData(t, f) && t.own[f].KernelPage? && IsHeapPage(t, vaddr, f)
  {
  }

  /** The writes of `create_page_dir`: words 768..1023 are copied from the last page of the address
      space, then word 1023 is made to name the new page's own frame. */
  method FillPageDir(m: Machine, page: Word, ghost f: Frame)
    requires IsDir(m.S(), m.cr3) && IsHeapPage(m.S(), page, f) && m.mem[f] == ZeroPage()
    requires Inv(m.S())
    modifies m`mem
    ensures m.S() == WriteData(old(m.S()), f, NewDirPage(old(m.mem), m.cr3, f))
  {
    hide Inv, Walk, KEntry, SelfMapped, Entry, IsHeapPage, WordsCopied, HalfDirPage, NewDirPage, Present, FrameOf;
    ghost var t, dir := m.S(), m.cr3;
    HeapWalk(t, dir, page, f, 4 * KERNEL_DI);
    DirIsSelfMapped(t, dir);
    DirWalk(t, dir, KERNEL_DI);
    m.CopyWords(page + 4 * KERNEL_DI, 0xffff_f000 + 4 * KERNEL_DI, ENTRIES - KERNEL_DI);
    ghost var half: Page := HalfDirPage(t.mem, dir);
    HalfCopied(t.mem, dir, f);
    WordOfPage(page, KERNEL_DI);
    WordOfPage(0xffff_f000, KERNEL_DI);
    WordOfPage(f * PAGE_SIZE, KERNEL_DI);
    WordOfPage(dir * PAGE_SIZE, KERNEL_DI);
    assert m.mem == t.mem[f := half];
    HeapPageStays(t, page, f, half);
    HeapWalk(m.S(), dir, page, f, 0);
    var paddr := m.AddrV2P(page);
    HeapWalk(m.S(), dir, page, f, 4 * SELF);
    m.Store(page + 4 * SELF, paddr + 7);
    SelfEntryLast(t.mem, dir, f);
  }

  /** The new page after the copy, before entry 1023 is set right. */
  function HalfDirPage(mem: Memory, dir: Frame): (page: Page)
    ensures page == ZeroPage()[..KERNEL_DI] + mem[dir][KERNEL_DI..ENTRIES] + ZeroPage()[ENTRIES..]
  {
    ZeroPage()[..KERNEL_DI] + mem[dir][KERNEL_DI..]
  }

  lemma WordOfPage(page: int, i: Index)
    requires page % PAGE_SIZE == 0
    ensures (page + 4 * i) / PAGE_SIZE == page / PAGE_SIZE && (page + 4 * i) % PAGE_SIZE / 4 == i
  {
  }

  lemma HalfCopied(mem: Memory, dir: Frame, f: Frame)
    requires mem[f] == ZeroPage()
    ensures WordsCopied(mem, f, KERNEL_DI, dir, KERNEL_DI, ENTRIES - KERNEL_DI) == mem[f := HalfDirPage(mem, dir)]
  {
  }

  lemma SelfEntryLast(mem: Memory, dir: Frame, f: Frame)
    ensures HalfDirPage(mem, dir)[SELF := EntryFor(f)] == NewDirPage(mem, dir, f)
  {
  }

  lemma HeapPageStays(t: State, page: Word, f: Frame, contents: Page)
    requires IsHeapPage(t, page, f)
    requires Inv(t)
    ensures var u := WriteData(t, f, contents);
            Inv(u) && IsHeapPage(u, page, f) && forall d :: IsDir(t, d) ==> IsDir(u, d)
  {
    hide Inv, KEntry, UEntry, Present, FrameOf;
    WriteDataKeepsInv(t, f, contents);
  }

  /** `create_page_dir`, for the active directory. */
  method CreatePageDir(m: Machine) returns (r: Outcome<Word>)
    requires Settled(m.S()) && m.Valid()
    modifies m
    ensures m.cr3 == old(m.cr3) && m.current == old(m.current)
    ensures DirCreated(old(m.S()), m.S(), r) && !r.Null?
    ensures if r.Halt? then m.Exhausted() else m.Valid() && Settled(m.S())
    ensures r.Done? ==> Gained(old(m.S()), m.S(), {r.value / PAGE_SIZE}, {})
  {
    hide Gained, Inv, Settled, IsHeapPage, SpacesKept, KernelPageGot, DirCreated, HeapPageGot;
    ghost var s := m.S();
    r := GetKernelPage(m);
    if !r.Done? {
      NoDirCreated(s, m.S(), r);
      return;
    }
    ghost var t, dir := m.S(), m.cr3;
    var page := r.value;
    ghost var f := PageGotFacts(s, t, page);
    FillPageDir(m, page, f);
    RefilledPageGot(s, t, page, f, NewDirPage(t.mem, dir, f));
    RefilledPageGained(s, t, page, f, NewDirPage(t.mem, dir, f));
    NewDirIsCreated(s, t, m.S(), dir, page, f);
  }

  /** The pages and the address space of `process_execute`: one page for the PCB, the pages of the user
      bitmap, and a new directory with an empty bitmap. The source does not test the bitmap's pages for
      NULL; here the call ends with it. */
  method CreateProcessSpace(m: Machine, guard: bool)
    returns (r: Outcome<Word>, ghost pcb: int, ghost bitmap: int)
    requires Settled(m.S()) && m.Valid()
    requires IsFull(m.kernelBits) || Bitmaps.ScanExact(AfterOne(m.kernelBits), guard, BITMAP_PAGES)
    modifies m
    ensures !r.Halt? ==> SpacesKept(old(m.S()), m.S()) && DataStays(old(m.S()), m.S())
    ensures r.Null? ==> m.userBits == old(m.userBits)
    ensures r.Done? ==>
            && IsPgdir(m.S(), r.value, HeapFrame(m.S(), r.value))
            && HeapFrame(m.S(), r.value) !in old(m.userBits)
    ensures r.Done? ==> m.userBits == old(m.userBits)[HeapFrame(m.S(), r.value) := NoBits()]
    ensures r.Done? ==> Takes(old(m.S()), m.S(), {pcb} + Run(bitmap, BITMAP_PAGES) + {r.value / PAGE_SIZE},
                              {HeapFrame(m.S(), r.value)})
                        && |{pcb} + Run(bitmap, BITMAP_PAGES) + {r.value / PAGE_SIZE}| == BITMAP_PAGES + 2
    ensures r.Null? ==> Takes(old(m.S()), m.S(), {pcb}, {})
    ensures if r.Halt? then m.Exhausted() else m.cr3 == old(m.cr3) && m.current == old(m.current)
    ensures !r.Halt? ==> m.Valid() && Settled(m.S())
  {
    hide Inv, Settled, IsHeapPage, SpacesKept, KernelPageGot, DirCreated, HeapPageGot, HeapFrame, IsPgdir, HeapRunGot;
    hide IsFull, Bitmaps.ScanExact, Gained, Takes, Adopt, CanAdopt, NoBits, KEntry, Present, FrameOf, Walk, SelfMapped;
    hide Entry, DataStays;
    pcb, bitmap := 0, 0;
    ghost var s0 := m.S();
    r := GetKernelPage(m);
    if r.Halt? {
      return;
    }
    ghost var s1 := m.S();
    ghost var pcbFrame := PageGotFacts(s0, s1, r.value);
    PageGotKeepsSpaces(s0, s1, r.value, pcbFrame);
    pcb := r.value / PAGE_SIZE;
    GainedTakes(s0, s1, {pcb}, {});
    r := GetKernelPages(m, BITMAP_PAGES, guard);
    if !r.Done? {
      return;
    }
    ghost var s := m.S();
    bitmap := r.value / PAGE_SIZE;
    RunGotKeepsSpaces(s1, s, r.value, BITMAP_PAGES);
    SpacesKeptTrans(s0, s1, s);
    DataStaysTrans(s0, s1, s);
    r := CreatePageDir(m);
    if r.Done? {
      ghost var t := m.S();
      ghost var f := NewSpaceFacts(s, t, r.value);
      HeapWalk(t, m.cr3, r.value, f, 0);
      var paddr := m.AddrV2P(r.value);
      AdoptKeepsInv(t, f, NoBits());
      NewSpaceAdopted(s, t, r.value, f);
      EmptyAdopted(t, f);
      m.userBits := m.userBits[paddr / PAGE_SIZE := NoBits()];
      assert m.S() == Adopt(t, f, NoBits());
      SpacesKeptTrans(s0, s, m.S());
      NewSpaceTakes(s0, s1, s, t, pcb, bitmap, r.value / PAGE_SIZE, f);
      DirKeepsData(s, t, r.value);
      DataStaysTrans(s0, s, t);
      AdoptedStays(s0, s, t, f, NoBits());
    } else {
      NothingCreated(s, m.S(), r);
    }
  }

  /** The pages of the PCB, of the bitmap and of the directory are all that the heap has more. */
  lemma ThreeGains(s0: State, s1: State, s: State, t: State, pcb: int, bitmap: int, dir: int)
    requires Gained(s0, s1, {pcb}, {}) && Gained(s1, s, Run(bitmap, BITMAP_PAGES), {}) && Gained(s, t, {dir}, {})
    requires Inv(s0)
    ensures Gained(s0, t, {pcb} + Run(bitmap, BITMAP_PAGES) + {dir}, {})
    ensures |{pcb} + Run(bitmap, BITMAP_PAGES) + {dir}| == BITMAP_PAGES + 2
    ensures pcb !in Run(bitmap, BITMAP_PAGES) && pcb != dir && dir !in Run(bitmap, BITMAP_PAGES)
  {
    hide Inv, Gained;
    HeapBound(s0);
    var none: set<Frame> := {};
    assert none + none == none;
    GainedTrans(s0, s1, s, {pcb}, none, Run(bitmap, BITMAP_PAGES), none);
    GainedTrans(s0, s, t, {pcb} + Run(bitmap, BITMAP_PAGES), none, {dir}, none);
    RunSize(bitmap, BITMAP_PAGES);
    assert pcb in {pcb} && dir in {dir};
  }

  lemma NewSpaceTakes(s0: State, s1: State, s: State, t: State, pcb: int, bitmap: int, dir: int, f: Frame)
    requires Gained(s0, s1, {pcb}, {}) && Gained(s1, s, Run(bitmap, BITMAP_PAGES), {}) && Gained(s, t, {dir}, {})
    requires f !in s0.userBits && Settled(s0) && Settled(Adopt(t, f, NoBits()))
    requires Inv(s0) && Inv(Adopt(t, f, NoBits()))
    ensures Takes(s0, Adopt(t, f, NoBits()), {pcb} + Run(bitmap, BITMAP_PAGES) + {dir}, {f})
    ensures |{pcb} + Run(bitmap, BITMAP_PAGES) + {dir}| == BITMAP_PAGES + 2
  {
    hide Inv, Settled, Gained, Takes;
    var pages := {pcb} + Run(bitmap, BITMAP_PAGES) + {dir};
    ThreeGains(s0, s1, s, t, pcb, bitmap, dir);
    AdoptGains(t, f, NoBits());
    HeapBound(s0);
    NothingMore(s0, t, Adopt(t, f, NoBits()), pages, {});
    MoreSpaces(s0, Adopt(t, f, NoBits()), pages, {}, f);
    var one: set<Frame> := {};
    assert one + {f} == {f};
    GainedTakes(s0, Adopt(t, f, NoBits()), pages, {f});
  }

  /** A frame that was not in use is no data of the state before. */
  lemma AdoptedStays(s0: State, s: State, t: State, f: Frame, bits: seq<bool>)
    requires DataStays(s0, t) && SpacesKept(s0, s) && f !in s.own
    ensures DataStays(s0, Adopt(t, f, bits))
  {
    hide UEntry;
    AdoptKeepsData(t, f, bits);
  }

  lemma EmptyAdopted(t: State, f: Frame)
    requires SetPages(f, NoBits(), 0) == {}
    ensures Adopt(t, f, NoBits()) == t.(userBits := t.userBits[f := NoBits()])
  {
    hide SetPages, NoBits;
  }

  lemma PageGotKeepsSpaces(s: State, t: State, vaddr: Word, f: Frame)
    requires HeapPageGot(s, t, vaddr, f)
    ensures SpacesKept(s, t) && t.userBits == s.userBits && DataStays(s, t)
  {
  }

  lemma RunGotKeepsSpaces(s: State, t: State, vaddr: Word, n: nat)
    requires HeapRunGot(s, t, vaddr, n)
    ensures SpacesKept(s, t) && t.userBits == s.userBits && DataStays(s, t)
  {
  }

  lemma DirKeepsData(s: State, t: State, vaddr: Word)
    requires DirCreated(s, t, Done(vaddr))
    ensures DataStays(s, t)
  {
    hide KernelHalf, LowerHalfEmpty;
    PageGotKeepsSpaces(s, t, vaddr, HeapFrame(t, vaddr));
  }

  lemma NothingCreated(s: State, t: State, r: Outcome<Word>)
    requires DirCreated(s, t, r)
    ensures r.Null? ==> t == s
  {
  }

  /** The directory just created can be adopted with an empty bitmap. */
  lemma NewSpaceFacts(s: State, t: State, vaddr: Word) returns (f: Frame)
    requires DirCreated(s, t, Done(vaddr))
    ensures f == HeapFrame(t, vaddr) && HeapPageGot(s, t, vaddr, f) && CanAdopt(t, f, NoBits())
            && IsHeapPage(t, vaddr, f) && f !in s.own
    ensures t.userBits == s.userBits
    ensures SetPages(f, NoBits(), 0) == {}
  {
    hide KernelHalf, LowerHalfEmpty, SpacesKept;
    f := HeapFrame(t, vaddr);
    GotIsData(s, t, vaddr, f);
  }

  lemma NewSpaceAdopted(s: State, t: State, vaddr: Word, f: Frame)
    requires HeapPageGot(s, t, vaddr, f) && CanAdopt(t, f, NoBits()) && f == HeapFrame(t, vaddr) && f !in s.own
             && SetPages(f, NoBits(), 0) == {}
    requires Settled(t) && Inv(s)
    ensures var u := Adopt(t, f, NoBits());
            Settled(u) && SpacesKept(s, u) && IsPgdir(u, vaddr, f) && HeapFrame(u, vaddr) == f && f !in s.userBits
  {
    DirsHaveRoles(s);
    hide Inv, UEntry, KEntry, Present, FrameOf, KernelHalf, LowerHalfEmpty, SetPages;
    PageGotKeepsSpaces(s, t, vaddr, f);
    var u := Adopt(t, f, NoBits());
    assert u.pending == t.pending;
    AdoptKeepsSpaces(t, f, NoBits());
    SpacesKeptTrans(s, t, u);
    hide SpacesKept;
  }

  // ---------- fork ----------

  /** `pgdir` is the heap address of directory d. */
  ghost predicate IsPgdir(s: State, pgdir: Word, d: Frame) {
    && IsHeapAddr(s, pgdir) && IsKernelVp(pgdir / PAGE_SIZE)
    && Present(KEntry(s.mem, pgdir / PAGE_SIZE)) && HeapFrame(s, pgdir) == d && d in s.userBits
  }

  /** The heap is mapped in the same way, and the directories of s are still directories. */
  ghost predicate HeapKept(s: State, t: State) {
    && |t.kernelBits| == |s.kernelBits|
    && (forall k :: IsKernelVp(k) ==> KEntry(t.mem, k) == KEntry(s.mem, k))
    && (forall d :: d in s.userBits ==> d in t.userBits)
  }

  /** Any directory reaches any mapped heap page. */
  lemma HeapReached(s: State, dir: Frame, vaddr: Word)
    requires IsDir(s, dir) && IsHeapAddr(s, vaddr) && IsKernelVp(vaddr / PAGE_SIZE)
             && Present(KEntry(s.mem, vaddr / PAGE_SIZE))
    requires Inv(s)
    ensures Walk(s.mem, dir, vaddr) == Some(HeapFrame(s, vaddr) * PAGE_SIZE)
    ensures SelfMapped(s.mem, dir) && Present(s.mem[dir][PdeIdx(vaddr)])
    ensures FrameOf(Entry(s.mem, dir, vaddr / PAGE_SIZE)) == HeapFrame(s, vaddr)
  {
    hide Inv;
    DirIsSelfMapped(s, dir);
    KernelHalfShared(s, dir, vaddr);
    WalkIsEntry(s.mem, dir, vaddr);
    PageOfTable(vaddr);
  }

  /** `page_dir_activate`: the directory of a process, or the boot directory for a thread whose
      `pgdir` is NULL. */
  method PageDirActivate(m: Machine, pgdir: Word, ghost d: Frame)
    requires IsDir(m.S(), m.cr3) && if pgdir == 0 then d == BOOT_DIR else IsPgdir(m.S(), pgdir, d)
    requires Inv(m.S())
    modifies m`cr3
    ensures m.cr3 == d && IsDir(m.S(), m.cr3)
  {
    hide Inv, Entry, KEntry, Present, FrameOf, SelfMapped;
    var pagedirPhyAddr := 0x10_0000;
    if pgdir != 0 {
      HeapReached(m.S(), m.cr3, pgdir);
      pagedirPhyAddr := m.AddrV2P(pgdir);
    }
    m.cr3 := pagedirPhyAddr / PAGE_SIZE;
  }

  /** Before and during the copy, the buffer and the two directories are where they should be. */
  ghost predicate CopyPlaces(s: State, parentPgdir: Word, childPgdir: Word, bufPage: Word, parent: Frame, child: Frame,
      buf: Frame) {
    && IsPgdir(s, parentPgdir, parent) && IsPgdir(s, childPgdir, child)
    && IsHeapAddr(s, bufPage) && IsKernelVp(bufPage / PAGE_SIZE) && Present(KEntry(s.mem, bufPage / PAGE_SIZE))
        && HeapFrame(s, bufPage) == buf
  }

  lemma PlacesKept(s: State, t: State, parentPgdir: Word, childPgdir: Word, bufPage: Word, parent: Frame, child: Frame,
      buf: Frame)
    requires CopyPlaces(s, parentPgdir, childPgdir, bufPage, parent, child, buf) && HeapKept(s, t)
    ensures CopyPlaces(t, parentPgdir, childPgdir, bufPage, parent, child, buf)
  {
    hide KEntry, Present, FrameOf;
  }

  lemma CopiedHeapKept(s: State, t: State, parent: Frame, child: Frame, buf: Frame, vp: int)
    requires CopyReady(s, parent, child, buf) && CopiedUpTo(s, t, parent, child, buf, vp)
    requires Inv(s)
    ensures HeapKept(s, t)
  {
    BootIsNoUserDir(s);
    hide Inv, KEntry, UEntry, Present, FrameOf;
  }

  lemma UserReached(s: State, dir: Frame, vp: VPage)
    requires dir in s.userBits && vp < KERNEL_BASE && Present(UEntry(s.mem, dir, vp))
    ensures Walk(s.mem, dir, vp * PAGE_SIZE) == Some(UserFrame(s, dir, vp) * PAGE_SIZE)
  {
    WalkIsEntry(s.mem, dir, vp * PAGE_SIZE);
  }

  /** After the parent's page is in the buffer, the child's page can be mapped. */
  lemma BufferFilled(s: State, t: State, parent: Frame, child: Frame, buf: Frame, vp: int) returns (t1: State)
    requires CopyReady(s, parent, child, buf) && CopiedUpTo(s, t, parent, child, buf, vp) && IsUserVp(vp)
    requires IsSet(s.userBits[child], vp)
    requires Inv(s) && Inv(t)
    ensures Present(UEntry(t.mem, parent, vp)) && parent in t.userBits
    ensures t1 == WriteData(t, buf, t.mem[UserFrame(t, parent, vp)]) && Inv(t1) && HeapKept(t, t1)
    ensures IsPendingRun(t1, child, PF_USER, vp, 1)
  {
    hide Inv, KEntry, UEntry, Present, FrameOf;
    SetIsPresent(s, parent, vp);
    t1 := WriteData(t, buf, t.mem[UserFrame(t, parent, vp)]);
    assert UEntry(t.mem, parent, vp) == UEntry(s.mem, parent, vp);
    WriteDataKeepsInv(t, buf, t.mem[UserFrame(t, parent, vp)]);
  }

  /** After the child's page is mapped, it can be reached through the child's directory. */
  lemma ChildReached(s: State, t: State, t1: State, u1: State, parent: Frame, child: Frame, buf: Frame, vp: VPage)
    returns (nf: Frame, u2: State)
    requires CopyReady(s, parent, child, buf) && CopiedUpTo(s, t, parent, child, buf, vp) && IsUserVp(vp)
    requires IsSet(s.userBits[child], vp)
    requires t1 == WriteData(t, buf, t.mem[UserFrame(t, parent, vp)]) && OneMapped(t1, child, PF_USER, vp) == Done(u1)
    requires Inv(s) && Inv(t)
    ensures Inv(u1) && HeapKept(t1, u1) && Walk(u1.mem, child, vp * PAGE_SIZE) == Some(nf * PAGE_SIZE)
    ensures u2 == WriteData(u1, nf, u1.mem[buf]) && CopiedPage(t, parent, child, buf, vp) == Done(u2)
    ensures Inv(u2) && CopiedUpTo(s, u2, parent, child, buf, vp + 1)
  {
    hide Inv, KEntry, UEntry, Present, FrameOf, SameEntries, OneMapped;
    u2 := CopyStep(s, t, parent, child, buf, vp);
    nf := UserFrame(u1, child, vp);
    OneMappedKeepsInv(s, t, t1, u1, parent, child, buf, vp);
    assert IsPlace(t1, child, vp);
    UserReached(u1, child, vp);
  }

  lemma OneMappedKeepsInv(s: State, t: State, t1: State, u1: State, parent: Frame, child: Frame, buf: Frame, vp: VPage)
    requires CopyReady(s, parent, child, buf) && CopiedUpTo(s, t, parent, child, buf, vp) && IsUserVp(vp)
    requires IsSet(s.userBits[child], vp)
    requires t1 == WriteData(t, buf, t.mem[UserFrame(t, parent, vp)]) && OneMapped(t1, child, PF_USER, vp) == Done(u1)
    requires Inv(s) && Inv(t)
    ensures Inv(u1) && HeapKept(t1, u1) && MapsExactly(t1, u1, child, vp, 1) && child in u1.userBits
  {
    hide Inv, KEntry, UEntry, Present, FrameOf, OneMapped;
    var t1' := BufferFilled(s, t, parent, child, buf, vp);
    assert CanMapOne(t1, child, PF_USER, vp);
    var f, ready, u := RoundKeepsInv(t1, child, PF_USER, vp);
    RoundIsExact(t1, child, PF_USER, vp, f, ready, u1);
    BootIsNoUserDir(t1);
  }

  /** One set bit of the loop of `copy_body_stack3`. */
  method CopyOnePage(m: Machine, parentPgdir: Word, childPgdir: Word, bufPage: Word, progVaddr: Word,
                     ghost s: State, ghost parent: Frame, ghost child: Frame, ghost buf: Frame) returns (ok: bool)
    requires progVaddr % PAGE_SIZE == 0 && IsUserVp(progVaddr / PAGE_SIZE) && m.cr3 == parent
    requires CopyReady(s, parent, child, buf) && CopiedUpTo(s, m.S(), parent, child, buf, progVaddr / PAGE_SIZE)
    requires IsSet(s.userBits[child], progVaddr / PAGE_SIZE)
    requires CopyPlaces(s, parentPgdir, childPgdir, bufPage, parent, child, buf)
    requires Inv(s) && Inv(m.S())
    modifies m
    ensures m.current == old(m.current)
    ensures CopiedPage(old(m.S()), parent, child, buf, progVaddr / PAGE_SIZE) == if ok then Done(m.S()) else Halt
    ensures ok ==> m.cr3 == parent && Inv(m.S()) && CopiedUpTo(s, m.S(), parent, child, buf, progVaddr / PAGE_SIZE + 1)
    ensures !ok ==> m.Exhausted()
  {
    hide Inv, KEntry, UEntry, Present, FrameOf, SameEntries, OneMapped, CopiedUpTo, CopyReady, HeapKept, IsPendingRun;
    hide Walk, CopyPlaces;
    ghost var t, vp := m.S(), progVaddr / PAGE_SIZE;
    CopiedHeapKept(s, t, parent, child, buf, vp);
    PlacesKept(s, t, parentPgdir, childPgdir, bufPage, parent, child, buf);
    ghost var t1 := BufferFilled(s, t, parent, child, buf, vp);
    UserReached(t, parent, vp);
    BufferReached(t, parent, parentPgdir, childPgdir, bufPage, parent, child, buf);
    m.CopyWords(bufPage, progVaddr, ENTRIES);
    assert t.mem[buf][..0] + t.mem[UserFrame(t, parent, vp)][0..ENTRIES]
        + t.mem[buf][ENTRIES..] == t.mem[UserFrame(t, parent, vp)];
    PlacesKept(t, t1, parentPgdir, childPgdir, bufPage, parent, child, buf);
    PlacesAreDirs(t1, parentPgdir, childPgdir, bufPage, parent, child, buf);
    PageDirActivate(m, childPgdir, child);
    ok := m.GetAPageWithoutBitmap(PF_USER, progVaddr, 1);
    if !ok {
      return;
    }
    ghost var u1 := m.S();
    ghost var nf, u2 := ChildReached(s, t, t1, u1, parent, child, buf, vp);
    PlacesKept(t1, u1, parentPgdir, childPgdir, bufPage, parent, child, buf);
    BufferReached(u1, child, parentPgdir, childPgdir, bufPage, parent, child, buf);
    m.CopyWords(progVaddr, bufPage, ENTRIES);
    assert u1.mem[nf][..0] + u1.mem[buf][0..ENTRIES] + u1.mem[nf][ENTRIES..] == u1.mem[buf];
    CopiedHeapKept(s, u2, parent, child, buf, vp + 1);
    PlacesKept(s, u2, parentPgdir, childPgdir, bufPage, parent, child, buf);
    PlacesAreDirs(u2, parentPgdir, childPgdir, bufPage, parent, child, buf);
    PageDirActivate(m, parentPgdir, parent);
  }

  lemma BufferReached(s: State, dir: Frame, parentPgdir: Word, childPgdir: Word, bufPage: Word, parent: Frame,
      child: Frame, buf: Frame)
    requires CopyPlaces(s, parentPgdir, childPgdir, bufPage, parent, child, buf) && (dir == parent || dir == child)
    requires Inv(s)
    ensures Walk(s.mem, dir, bufPage) == Some(buf * PAGE_SIZE) && bufPage % PAGE_SIZE == 0
  {
    hide Inv;
    HeapReached(s, dir, bufPage);
  }

  lemma PlacesAreDirs(s: State, parentPgdir: Word, childPgdir: Word, bufPage: Word, parent: Frame, child: Frame,
      buf: Frame)
    requires CopyPlaces(s, parentPgdir, childPgdir, bufPage, parent, child, buf)
    ensures IsPgdir(s, parentPgdir, parent) && IsPgdir(s, childPgdir, child) && parent in s.userBits
            && child in s.userBits
  {
  }

  lemma ReadyBits(s: State, parent: Frame, child: Frame, buf: Frame)
    requires CopyReady(s, parent, child, buf)
    requires Inv(s)
    ensures parent in s.userBits && child in s.userBits && s.userBits[child] == s.userBits[parent]
            && |s.userBits[parent]| == USER_PAGES
  {
    SizesOf(s);
  }

  /** The inner loop of `copy_body_stack3`, over the bits of one byte of the parent's bitmap. */
  method CopyByte(m: Machine, parentPgdir: Word, childPgdir: Word, bufPage: Word, vaddrBtmp: seq<bool>, idxByte: nat,
                  ghost s: State, ghost parent: Frame, ghost child: Frame, ghost buf: Frame) returns (ok: bool)
    requires idxByte < USER_PAGES / 8 && child in s.userBits && vaddrBtmp == s.userBits[child]
             && |vaddrBtmp| == USER_PAGES
    requires m.cr3 == m.current == parent && CopyReady(s, parent, child, buf)
    requires CopyPlaces(s, parentPgdir, childPgdir, bufPage, parent, child, buf)
    requires CopiedUpTo(s, m.S(), parent, child, buf, USER_START + 8 * idxByte)
    requires Inv(s) && Inv(m.S())
    modifies m
    ensures m.current == old(m.current)
    ensures ok ==> m.cr3 == parent && Inv(m.S())
                   && CopiedUpTo(s, m.S(), parent, child, buf, USER_START + 8 * idxByte + 8)
    ensures !ok ==> m.Exhausted()
  {
    hide Inv, Settled, CopiedUpTo, CopyPlaces, CopiedPage, EntriesExcept, OwnGrows, CopyReady, SetPages, SameBits;
    var idxBit := 0;
    while idxBit < 8
      invariant 0 <= idxBit <= 8
      invariant m.cr3 == parent && m.current == parent && Inv(m.S())
      invariant CopiedUpTo(s, m.S(), parent, child, buf, USER_START + 8 * idxByte + idxBit)
    {
      var vp := USER_START + 8 * idxByte + idxBit;
      if vaddrBtmp[8 * idxByte + idxBit] {
        ok := CopyOnePage(m, parentPgdir, childPgdir, bufPage, vp * PAGE_SIZE, s, parent, child, buf);
        if !ok {
          return;
        }
      } else {
        ClearBitStep(s, m.S(), parent, child, buf, vp);
      }
      idxBit := idxBit + 1;
    }
    return true;
  }

  /** `copy_body_stack3`: every byte of the parent's bitmap, every bit of a byte that is not 0. */
  method CopyBodyStack3(m: Machine, parentPgdir: Word, childPgdir: Word, bufPage: Word,
                        ghost parent: Frame, ghost child: Frame, ghost buf: Frame) returns (ok: bool)
    requires m.cr3 == m.current == parent && CopyReady(m.S(), parent, child, buf)
    requires CopyPlaces(m.S(), parentPgdir, childPgdir, bufPage, parent, child, buf)
    requires Inv(m.S())
    modifies m
    ensures m.current == old(m.current)
    ensures ok ==> m.cr3 == parent && Inv(m.S()) && CopiedUpTo(old(m.S()), m.S(), parent, child, buf, KERNEL_BASE)
    ensures !ok ==> m.Exhausted()
  {
    hide Inv, Settled, CopiedUpTo, CopyPlaces, CopiedPage, EntriesExcept, OwnGrows, CopyReady, SetPages, SameBits;
    ghost var s := m.S();
    ReadyBits(s, parent, child, buf);
    CopyBegins(s, parent, child, buf);
    var vaddrBtmp := m.userBits[m.current];
    var idxByte := 0;
    while idxByte < USER_PAGES / 8
      invariant 0 <= idxByte <= USER_PAGES / 8
      invariant m.cr3 == parent && m.current == parent && Inv(m.S())
      invariant CopiedUpTo(s, m.S(), parent, child, buf, USER_START + 8 * idxByte)
    {
      if exists k :: 8 * idxByte <= k < 8 * idxByte + 8 && vaddrBtmp[k] {
        ok := CopyByte(m, parentPgdir, childPgdir, bufPage, vaddrBtmp, idxByte, s, parent, child, buf);
        if !ok {
          return;
        }
      } else {
        ClearByteStep(s, m.S(), parent, child, buf, USER_START + 8 * idxByte);
      }
      idxByte := idxByte + 1;
    }
    return true;
  }

  lemma ClearByteStep(s: State, t: State, parent: Frame, child: Frame, buf: Frame, vp: int)
    requires CopyReady(s, parent, child, buf) && CopiedUpTo(s, t, parent, child, buf, vp) && USER_START <= vp
             && vp + 8 <= KERNEL_BASE
    requires forall v :: vp <= v < vp + 8 ==> !IsSet(s.userBits[child], v)
    requires Inv(s)
    ensures CopiedUpTo(s, t, parent, child, buf, vp + 8)
  {
    hide Inv, CopiedUpTo, CopyReady;
    var v := vp;
    while v < vp + 8
      invariant vp <= v <= vp + 8 && CopiedUpTo(s, t, parent, child, buf, v)
    {
      ClearBitStep(s, t, parent, child, buf, v);
      v := v + 1;
    }
  }

  /** `copy_process`: buffer page, the pages of the child's bitmap, directory, bitmap, pages, and the
      buffer back. The source does not test the bitmap's pages for NULL; here the call ends with it. */
  method CopyProcess(m: Machine, parentPgdir: Word, guard: bool)
    returns (r: Outcome<Word>, ghost buffer: int, ghost bitmap: int)
    requires m.cr3 == m.current && IsPgdir(m.S(), parentPgdir, m.current)
    requires IsFull(m.kernelBits) || Bitmaps.ScanExact(AfterOne(m.kernelBits), guard, BITMAP_PAGES)
    requires Settled(m.S()) && m.Valid()
    modifies m
    ensures r.Null? ==> SpacesKept(old(m.S()), m.S())
    ensures r.Done? ==> Snapshot(old(m.S()), m.S(), m.current, HeapFrame(m.S(), r.value))
    ensures r.Done? ==> IsPgdir(m.S(), r.value, HeapFrame(m.S(), r.value))
    ensures r.Done? ==> Gained(old(m.S()), m.S(), Run(bitmap, BITMAP_PAGES) + {r.value / PAGE_SIZE},
                               {HeapFrame(m.S(), r.value)})
    ensures r.Done? ==> |Run(bitmap, BITMAP_PAGES) + {r.value / PAGE_SIZE}| == BITMAP_PAGES + 1
    ensures r.Null? ==> Gained(old(m.S()), m.S(), {buffer}, {})
    ensures !r.Halt? ==> DataStays(old(m.S()), m.S())
    ensures if r.Halt? then m.Exhausted() else m.current == old(m.current) && m.cr3 == old(m.cr3)
    ensures !r.Halt? ==> m.Valid() && Settled(m.S())
  {
    hide Inv, Settled, IsHeapPage, IsPgdir, SpacesKept, KernelPageGot, DirCreated, HeapPageGot, CopyReady, CopyPlaces;
    hide CopiedUpTo, Snapshot, HeapFrame, CanFree, Gained, DataStays;
    hide HeapRunGot, IsFull, Bitmaps.ScanExact, PagesReady;
    buffer, bitmap := 0, 0;
    ghost var s0, parent := m.S(), m.current;
    r := GetKernelPage(m);
    if !r.Done? {
      NullKeepsSpaces(s0, m.S(), r);
      return;
    }
    var bufPage := r.value;
    buffer := bufPage / PAGE_SIZE;
    ghost var s1 := m.S();
    ghost var buf := PageGotFacts(s0, s1, bufPage);
    PageGotKeepsSpaces(s0, s1, bufPage, buf);
    r := GetKernelPages(m, BITMAP_PAGES, guard);
    if !r.Done? {
      return;
    }
    ghost var s11 := m.S();
    RunGotKeepsSpaces(s1, s11, r.value, BITMAP_PAGES);
    SpacesKeptTrans(s0, s1, s11);
    ghost var bitmapAddr := r.value;
    bitmap := bitmapAddr / PAGE_SIZE;
    r := CreatePageDir(m);
    if !r.Done? {
      return;
    }
    var childPgdir := r.value;
    ghost var s2 := m.S();
    ghost var child := NewPagesFound(s0, s1, s11, s2, parentPgdir, bufPage, buf, bitmapAddr, childPgdir, parent);
    ReadyPgdir(s0, s2, parentPgdir, bufPage, childPgdir, parent, buf, child);
    ThreeGains(s0, s1, s11, s2, buffer, bitmap, childPgdir / PAGE_SIZE);
    ghost var pages := {buffer} + Run(bitmap, BITMAP_PAGES) + {childPgdir / PAGE_SIZE};
    WithoutFirst(buffer, Run(bitmap, BITMAP_PAGES), childPgdir / PAGE_SIZE);
    var ok := CopyInto(m, parentPgdir, bufPage, childPgdir, s0, parent, buf, child, pages);
    if !ok {
      r := Halt;
      return;
    }
  }

  lemma ReadyPgdir(s0: State, s2: State, parentPgdir: Word, bufPage: Word, childPgdir: Word, parent: Frame, buf: Frame,
      child: Frame)
    requires PagesReady(s0, s2, parentPgdir, bufPage, childPgdir, parent, buf, child)
    ensures child == HeapFrame(s2, childPgdir) && IsHeapPage(s2, childPgdir, child) && parent in s0.userBits
            && child !in s0.userBits && child !in s0.own && buf !in s0.own
    ensures s2.userBits == s0.userBits && DataStays(s0, s2)
  {
  }

  /** `copy_process` from where all pages are there. */
  method CopyInto(m: Machine, parentPgdir: Word, bufPage: Word, childPgdir: Word,
                  ghost s0: State, ghost parent: Frame, ghost buf: Frame, ghost child: Frame, ghost pages: set<int>)
    returns (ok: bool)
    requires m.cr3 == m.current == parent && PagesReady(s0, m.S(), parentPgdir, bufPage, childPgdir, parent, buf, child)
    requires Gained(s0, m.S(), pages, {}) && bufPage / PAGE_SIZE in pages
    requires Settled(s0) && Inv(s0) && Settled(m.S()) && m.Valid()
    modifies m
    ensures if ok then m.current == old(m.current) && m.cr3 == old(m.cr3) && m.Valid() && Settled(m.S())
            else m.Exhausted()
    ensures ok ==>
            && Snapshot(s0, m.S(), parent, HeapFrame(m.S(), childPgdir))
            && IsPgdir(m.S(), childPgdir, HeapFrame(m.S(), childPgdir))
            && Gained(s0, m.S(), pages - {bufPage / PAGE_SIZE}, {HeapFrame(m.S(), childPgdir)})
            && DataStays(s0, m.S())
  {
    hide Inv, Settled, IsHeapPage, IsPgdir, SpacesKept, CopyReady, CopyPlaces, CopiedUpTo, Snapshot, HeapFrame, CanFree;
    hide PagesReady, Gained, DataStays;
    ghost var s2 := m.S();
    ReadyPgdir(s0, s2, parentPgdir, bufPage, childPgdir, parent, buf, child);
    HeapWalk(s2, m.cr3, childPgdir, child, 0);
    var paddr := m.AddrV2P(childPgdir);
    assert paddr / PAGE_SIZE == child;
    AdoptedIsReady(s0, s2, parentPgdir, bufPage, childPgdir, parent, buf, child);
    m.userBits := m.userBits[paddr / PAGE_SIZE := m.userBits[m.current]];
    m.pending := m.pending + SetPages(child, m.userBits[child], 0);
    ghost var s := m.S();
    ok := CopyBodyStack3(m, parentPgdir, childPgdir, bufPage, parent, child, buf);
    if !ok {
      return;
    }
    ghost var t := m.S();
    CopyEnds(s2, s, t, parentPgdir, childPgdir, bufPage, parent, buf, child);
    m.MFreePage(PF_KERNEL, bufPage, 1);
    BufferGivenBack(s0, s, t, m.S(), parentPgdir, childPgdir, bufPage, parent, buf, child);
    CopyTakes(s0, s2, t, parent, child, buf, bufPage / PAGE_SIZE, pages);
    CopyStays(s0, s2, t, parent, child, buf, bufPage / PAGE_SIZE, pages);
  }

  /** No page of data from before is written by the copy or given back after it. */
  lemma CopyStays(s0: State, s2: State, t: State, parent: Frame, child: Frame, buf: Frame, vp: int, pages: set<int>)
    requires DataStays(s0, s2) && Gained(s0, s2, pages, {}) && vp in pages && parent in s2.userBits
    requires child !in s0.own && buf !in s0.own
    requires CopiedUpTo(Adopt(s2, child, s2.userBits[parent]), t, parent, child, buf, KERNEL_BASE)
    requires CanFree(t, BOOT_DIR, vp, 1) && Settled(s0) && Settled(t)
    requires Inv(s0) && Inv(t)
    ensures DataStays(s0, Allocation.MFreePage(t, BOOT_DIR, vp, 1))
  {
    hide Inv, Settled, CopiedUpTo, CanFree, MFreePage, HeapGained, RolesGained, IsRoleIn;
    var s := Adopt(s2, child, s2.userBits[parent]);
    AdoptKeepsData(s2, child, s2.userBits[parent]);
    CopyKeepsData(s, t, parent, child, buf);
    FreeKeepsData(t, vp);
    GainedFacts(s0, s2, s, t, parent, child, buf, vp, pages);
  }

  lemma GainedFacts(s0: State, s2: State, s: State, t: State, parent: Frame, child: Frame, buf: Frame, vp: int,
      pages: set<int>)
    requires HeapGained(s0, s2, pages) && RolesGained(s0, s2, pages, {}) && vp in pages && s.own == s2.own
    requires CopiedUpTo(s, t, parent, child, buf, KERNEL_BASE) && Settled(s0)
    requires Inv(s0)
    ensures forall f :: f in s0.own ==> f in t.own && t.own[f] == s0.own[f] && !IsRoleIn(t.own[f], BOOT_DIR, vp, 1)
  {
    hide Inv, Settled, CopiedUpTo, IsRoleIn, KEntry, Present, EntriesExcept;
    assert InHeap(s0, vp) && !s0.kernelBits[vp - KERNEL_HEAP];
    NoRoleThere(s0, vp);
    CopiedParts(s, t, parent, child, buf);
  }

  /** Of the pages taken before the copy only the buffer's goes back; the copy itself takes frames for the
      child alone. */
  lemma CopyTakes(s0: State, s2: State, t: State, parent: Frame, child: Frame, buf: Frame, vp: int, pages: set<int>)
    requires Gained(s0, s2, pages, {}) && vp in pages && parent in s2.userBits
    requires CopiedUpTo(Adopt(s2, child, s2.userBits[parent]), t, parent, child, buf, KERNEL_BASE)
    requires CanFree(t, BOOT_DIR, vp, 1) && Settled(s0) && Settled(t)
    requires Inv(s0) && Inv(Adopt(s2, child, s2.userBits[parent])) && Inv(t)
    ensures Gained(s0, Allocation.MFreePage(t, BOOT_DIR, vp, 1), pages - {vp}, {child})
  {
    hide Inv, Settled, Gained, CopiedUpTo, CanFree, MFreePage;
    var s := Adopt(s2, child, s2.userBits[parent]);
    var none: set<Frame> := {};
    var nothing: set<int> := {};
    HeapBound(s0);
    AdoptGains(s2, child, s2.userBits[parent]);
    NothingMore(s0, s2, s, pages, none);
    CopyGains(s, t, parent, child, buf);
    GainedTrans(s0, s, t, pages, none, nothing, {child});
    assert pages + nothing == pages && none + {child} == {child};
    FreedAgain(s0, t, Allocation.MFreePage(t, BOOT_DIR, vp, 1), vp, pages, {child});
  }

  lemma WithoutFirst(x: int, run: set<int>, y: int)
    requires x !in run && x != y && y !in run
    ensures {x} + run + {y} - {x} == run + {y} && |run + {y}| == |run| + 1
  {
  }

  lemma NullKeepsSpaces(s: State, t: State, r: Outcome<Word>)
    requires KernelPageGot(s, t, r)
    ensures r.Null? ==> SpacesKept(s, t)
  {
  }

  /** A heap page that was mapped before a new one was got is another page, still mapped alike. */
  lemma OldHeapPageStays(s: State, t: State, vaddr: Word, f: Frame, vp: int)
    requires HeapPageGot(s, t, vaddr, f) && InHeap(s, vp) && Present(KEntry(s.mem, vp))
    requires Inv(s) && Inv(t)
    ensures vp != vaddr / PAGE_SIZE && KEntry(t.mem, vp) == KEntry(s.mem, vp) && InHeap(t, vp) && IsKernelVp(vp)
    ensures var g := FrameOf(KEntry(s.mem, vp));
            g != f && g in s.own && s.own[g] == KernelPage(vp) && g in t.own && t.own[g] == s.own[g]
  {
    hide Inv, KEntry, UEntry, Present, FrameOf;
    HeapEntryHasRole(s, vp);
    var g := FrameOf(KEntry(s.mem, vp));
    assert g in t.own && t.own[g] == KernelPage(vp);
    if vp == vaddr / PAGE_SIZE {
      RoleNamesEntry(t, g, vp);
      RoleNamesEntry(t, f, vp);
      assert false;
    }
  }

  lemma RoleNamesEntry(s: State, f: Frame, vp: int)
    requires f in s.own && s.own[f] == KernelPage(vp)
    requires Inv(s)
    ensures FrameOf(KEntry(s.mem, vp)) == f
  {
    hide DirsOk, KernelOk, UserOk, TablesOk, PendingOk, KEntry, UEntry, RightsOk;
    assert RoleOk(s, f);
  }

  ghost predicate PagesReady(s0: State, s2: State, parentPgdir: Word, bufPage: Word, childPgdir: Word, parent: Frame,
      buf: Frame, child: Frame) {
    && SpacesKept(s0, s2) && s2.userBits == s0.userBits
    && IsPgdir(s2, parentPgdir, parent)
    && IsHeapPage(s2, bufPage, buf) && IsHeapPage(s2, childPgdir, child) && child != buf && child !in s0.userBits
    && DataStays(s0, s2) && buf !in s0.own && child !in s0.own
    && KernelHalf(s2.mem, child) && LowerHalfEmpty(s2.mem, child)
  }

  /** The same after a run of heap pages was got. */
  lemma OldHeapPageOutsideRun(s: State, t: State, vaddr: Word, n: nat, vp: int)
    requires HeapRunGot(s, t, vaddr, n) && InHeap(s, vp) && Present(KEntry(s.mem, vp))
    requires Inv(s) && Inv(t)
    ensures KEntry(t.mem, vp) == KEntry(s.mem, vp) && InHeap(t, vp) && IsKernelVp(vp)
    ensures var g := FrameOf(KEntry(s.mem, vp));
            g in s.own && s.own[g] == KernelPage(vp) && g in t.own && t.own[g] == s.own[g]
  {
    hide Inv, KEntry, UEntry, Present, FrameOf;
    HeapEntryHasRole(s, vp);
    var g := FrameOf(KEntry(s.mem, vp));
    assert g in t.own && t.own[g] == KernelPage(vp);
    RoleNamesEntry(t, g, vp);
  }

  lemma HeapPageOutsideRun(s: State, t: State, vaddr: Word, n: nat, page: Word, f: Frame)
    requires HeapRunGot(s, t, vaddr, n) && IsHeapPage(s, page, f)
    requires Inv(s) && Inv(t)
    ensures IsHeapPage(t, page, f)
  {
    hide Inv, KEntry, UEntry, Present, FrameOf;
    OldHeapPageOutsideRun(s, t, vaddr, n, page / PAGE_SIZE);
  }

  lemma PgdirOutsideRun(s: State, t: State, vaddr: Word, n: nat, pgdir: Word, d: Frame)
    requires HeapRunGot(s, t, vaddr, n) && IsPgdir(s, pgdir, d)
    requires Inv(s) && Inv(t)
    ensures IsPgdir(t, pgdir, d)
  {
    hide Inv, KEntry, UEntry, Present, FrameOf;
    OldHeapPageOutsideRun(s, t, vaddr, n, pgdir / PAGE_SIZE);
  }

  /** After all these heap pages are there: where they are, and that nothing else moved. */
  lemma NewPagesFound(s0: State, s1: State, s11: State, s2: State, parentPgdir: Word, bufPage: Word, buf: Frame,
      bitmap: Word,
                      childPgdir: Word, parent: Frame)
    returns (child: Frame)
    requires HeapPageGot(s0, s1, bufPage, buf) && HeapRunGot(s1, s11, bitmap, BITMAP_PAGES)
    requires DirCreated(s11, s2, Done(childPgdir)) && IsPgdir(s0, parentPgdir, parent)
    requires Inv(s0) && Inv(s1) && Inv(s11) && Inv(s2)
    ensures PagesReady(s0, s2, parentPgdir, bufPage, childPgdir, parent, buf, child)
  {
    hide Inv, SpacesKept, KEntry, UEntry, Present, FrameOf, KernelHalf, LowerHalfEmpty, DataStays;
    child := HeapFrame(s2, childPgdir);
    PageGotKeepsSpaces(s0, s1, bufPage, buf);
    RunGotKeepsSpaces(s1, s11, bitmap, BITMAP_PAGES);
    DirKeepsData(s11, s2, childPgdir);
    DataStaysTrans(s0, s1, s11);
    DataStaysTrans(s0, s11, s2);
    SpacesKeptTrans(s0, s1, s11);
    SpacesKeptTrans(s0, s11, s2);
    OwnersStay(s0, s11);
    OldHeapPageStays(s0, s1, bufPage, buf, parentPgdir / PAGE_SIZE);
    HeapPageOutsideRun(s1, s11, bitmap, BITMAP_PAGES, bufPage, buf);
    PgdirOutsideRun(s1, s11, bitmap, BITMAP_PAGES, parentPgdir, parent);
    hide HeapRunGot;
    OldHeapPageStays(s11, s2, childPgdir, child, parentPgdir / PAGE_SIZE);
    OldHeapPageStays(s11, s2, childPgdir, child, bufPage / PAGE_SIZE);
  }

  lemma AdoptedIsReady(s0: State, s2: State, parentPgdir: Word, bufPage: Word, childPgdir: Word, parent: Frame,
      buf: Frame, child: Frame)
    requires PagesReady(s0, s2, parentPgdir, bufPage, childPgdir, parent, buf, child)
    requires Settled(s2) && Inv(s2)
    ensures parent in s2.userBits
    ensures var s := Adopt(s2, child, s2.userBits[parent]);
      && Inv(s) && SpacesKept(s0, s) && CopyReady(s, parent, child, buf)
      && CopyPlaces(s, parentPgdir, childPgdir, bufPage, parent, child, buf)
  {
    hide Inv, SpacesKept, KEntry, UEntry, Present, FrameOf, KernelHalf, LowerHalfEmpty;
    SizesOf(s2);
    AdoptKeepsInv(s2, child, s2.userBits[parent]);
    AdoptKeepsSpaces(s2, child, s2.userBits[parent]);
    SpacesKeptTrans(s0, s2, Adopt(s2, child, s2.userBits[parent]));
  }

  /** When the loop is done nothing is pending, and the buffer page can be freed. */
  lemma CopyEnds(s2: State, s: State, t: State, parentPgdir: Word, childPgdir: Word, bufPage: Word, parent: Frame,
      buf: Frame, child: Frame)
    requires CopyReady(s, parent, child, buf) && CopiedUpTo(s, t, parent, child, buf, KERNEL_BASE)
    requires CopyPlaces(s, parentPgdir, childPgdir, bufPage, parent, child, buf) && s.own == s2.own
    requires Settled(s2) && Inv(s) && Inv(t)
    ensures Settled(t) && CanFree(t, BOOT_DIR, bufPage / PAGE_SIZE, 1) && t.userBits == s.userBits
    ensures bufPage % PAGE_SIZE == 0 && CopyPlaces(t, parentPgdir, childPgdir, bufPage, parent, child, buf)
  {
    hide Inv, KEntry, UEntry, Present, FrameOf, CopyReady;
    SizesOf(s);
    SizesOf(t);
    CopiedHeapKept(s, t, parent, child, buf, KERNEL_BASE);
    PlacesKept(s, t, parentPgdir, childPgdir, bufPage, parent, child, buf);
    assert t.pending == {} by { hide EntriesExcept, OwnGrows; }
    forall f | f in t.own ensures t.own[f] != Reserved {
      assert f !in s.own ==> IsNewRole(t.own[f], child, USER_START, KERNEL_BASE - USER_START);
    }
    BufferCanGo(s, t, parent, child, buf, bufPage);
  }

  lemma BufferCanGo(s: State, t: State, parent: Frame, child: Frame, buf: Frame, bufPage: Word)
    requires CopyReady(s, parent, child, buf) && SameBits(s, t) && Sizes(t)
    requires IsHeapAddr(t, bufPage) && IsKernelVp(bufPage / PAGE_SIZE) && Present(KEntry(t.mem, bufPage / PAGE_SIZE))
             && HeapFrame(t, bufPage) == buf
    requires Inv(t)
    ensures CanFree(t, BOOT_DIR, bufPage / PAGE_SIZE, 1)
  {
    hide Inv, Present, FrameOf, KEntry;
    var vp := bufPage / PAGE_SIZE;
    HeapEntryHasRole(t, vp);
    PresentHasPooledFrame(t, BOOT_DIR, vp);
  }

  lemma BufferGivenBack(s0: State, s: State, t: State, w: State, parentPgdir: Word, childPgdir: Word, bufPage: Word,
      parent: Frame, buf: Frame, child: Frame)
    requires parent in s0.userBits && child !in s0.userBits && SpacesKept(s0, s)
    requires CopyReady(s, parent, child, buf) && CopiedUpTo(s, t, parent, child, buf, KERNEL_BASE)
    requires CopyPlaces(t, parentPgdir, childPgdir, bufPage, parent, child, buf)
    requires CanFree(t, BOOT_DIR, bufPage / PAGE_SIZE, 1)
             && w == Allocation.MFreePage(t, BOOT_DIR, bufPage / PAGE_SIZE, 1)
    requires Settled(t) && Inv(s0) && Inv(s) && Inv(t)
    ensures Snapshot(s0, w, parent, child) && IsPgdir(w, childPgdir, child) && HeapFrame(w, childPgdir) == child
  {
    hide Inv, KEntry, UEntry, Present, FrameOf, CanFree, CopiedUpTo, CopyReady, SpacesKept, Snapshot, Settled;
    hide MFreePage;
    var vp := bufPage / PAGE_SIZE;
    var u := MFreePageUnmapsItsRun(t, BOOT_DIR, vp, 1);
    HeapUnmappingKeepsSpaces(t, u, vp, 1);
    CopyIsSnapshot(s0, s, t, w, parent, child, buf);
    ChildPgdirStays(s, t, u, w, parentPgdir, childPgdir, bufPage, parent, buf, child);
  }

  lemma ChildPgdirStays(s: State, t: State, u: State, w: State, parentPgdir: Word, childPgdir: Word, bufPage: Word,
      parent: Frame, buf: Frame, child: Frame)
    requires CopyReady(s, parent, child, buf) && CopiedUpTo(s, t, parent, child, buf, KERNEL_BASE)
    requires CopyPlaces(t, parentPgdir, childPgdir, bufPage, parent, child, buf)
    requires UnmapsExactly(t, u, BOOT_DIR, bufPage / PAGE_SIZE, 1)
    requires IsRange(u, BOOT_DIR, bufPage / PAGE_SIZE, 1) && w == Release(u, BOOT_DIR, bufPage / PAGE_SIZE, 1)
    ensures IsPgdir(w, childPgdir, child) && HeapFrame(w, childPgdir) == child
  {
    hide KEntry, UEntry, Present, FrameOf;
    assert buf != child;
  }

  /** A page of a space that is kept has the same entry and the same contents. */
  lemma KeptPage(s: State, s0: State, d: Frame, vp: int)
    requires SpacesKept(s, s0) && d in s.userBits && 0 <= vp < KERNEL_BASE
    requires Inv(s)
    ensures UEntry(s0.mem, d, vp) == UEntry(s.mem, d, vp) && UserFrame(s0, d, vp) == UserFrame(s, d, vp)
    ensures Present(UEntry(s.mem, d, vp)) ==> s0.mem[UserFrame(s, d, vp)] == s.mem[UserFrame(s, d, vp)]
  {
    hide Inv, UEntry, Present, FrameOf;
    if Present(UEntry(s.mem, d, vp)) {
      PresentIsData(s, d, vp);
    }
  }

  lemma OwnersStay(s: State, s0: State)
    requires SpacesKept(s, s0)
    ensures forall f :: f in s.own ==> f in s0.own
  {
    hide UEntry;
  }

  /** A snapshot of a later state is one of an earlier state with the same spaces. */
  lemma SnapshotFrom(s: State, s0: State, w: State, parent: Frame, child: Frame)
    requires SpacesKept(s, s0) && s.userBits == s0.userBits && Snapshot(s0, w, parent, child)
    requires Inv(s)
    ensures Snapshot(s, w, parent, child)
  {
    hide Inv, UEntry, Present, UserFrame, SpacesKept;
    OwnersStay(s, s0);
    forall vp | 0 <= vp < KERNEL_BASE
      ensures Present(UEntry(w.mem, child, vp)) <==> Present(UEntry(s.mem, parent, vp))
    {
      KeptPage(s, s0, parent, vp);
    }
    forall vp | 0 <= vp < KERNEL_BASE && Present(UEntry(s.mem, parent, vp))
      ensures UserFrame(w, child, vp) !in s.own && w.mem[UserFrame(w, child, vp)] == s.mem[UserFrame(s, parent, vp)]
    {
      KeptPage(s, s0, parent, vp);
      assert Present(UEntry(s0.mem, parent, vp));
    }
    forall d | d in s.userBits ensures d in w.userBits && w.userBits[d] == s.userBits[d] {
      KeptPage(s, s0, d, 0);
    }
    forall d, vp | d in s.userBits && 0 <= vp < KERNEL_BASE
      ensures UEntry(w.mem, d, vp) == UEntry(s.mem, d, vp)
      ensures Present(UEntry(s.mem, d, vp)) ==> w.mem[UserFrame(s, d, vp)] == s.mem[UserFrame(s, d, vp)]
    {
      KeptPage(s, s0, d, vp);
    }
  }

  /** `sys_fork` up to the end of `copy_process`: a page for the child's PCB, then the copy. */
  method SysFork(m: Machine, parentPgdir: Word, guard: bool)
    returns (r: Outcome<Word>, ghost pcb: int, ghost buffer: int, ghost bitmap: int)
    requires m.cr3 == m.current && IsPgdir(m.S(), parentPgdir, m.current)
    requires var bits := AfterOne(m.kernelBits);
             IsFull(m.kernelBits) || IsFull(bits) || Bitmaps.ScanExact(AfterOne(bits), guard, BITMAP_PAGES)
    requires Settled(m.S()) && m.Valid()
    modifies m
    ensures r.Null? ==> SpacesKept(old(m.S()), m.S())
    ensures r.Done? ==> Snapshot(old(m.S()), m.S(), m.current, HeapFrame(m.S(), r.value))
    ensures r.Done? ==> IsPgdir(m.S(), r.value, HeapFrame(m.S(), r.value))
    ensures r.Done? ==> Takes(old(m.S()), m.S(), {pcb} + (Run(bitmap, BITMAP_PAGES) + {r.value / PAGE_SIZE}),
                              {HeapFrame(m.S(), r.value)})
                        && |{pcb} + (Run(bitmap, BITMAP_PAGES) + {r.value / PAGE_SIZE})| == BITMAP_PAGES + 2
    ensures r.Null? ==> Takes(old(m.S()), m.S(), {pcb} + {buffer}, {}) && pcb != buffer
    ensures !r.Halt? ==> DataStays(old(m.S()), m.S())
    ensures if r.Halt? then m.Exhausted() else m.current == old(m.current) && m.cr3 == old(m.cr3)
    ensures !r.Halt? ==> m.Valid() && Settled(m.S())
  {
    hide Inv, Settled, IsHeapPage, IsPgdir, SpacesKept, KernelPageGot, HeapPageGot, Snapshot, HeapFrame, IsFull;
    hide Bitmaps.ScanExact, Gained, Takes, DataStays;
    pcb, buffer, bitmap := 0, 0, 0;
    ghost var s, parent := m.S(), m.current;
    r := GetKernelPage(m);
    if r.Halt? {
      return;
    }
    ghost var s0 := m.S();
    ghost var pcbFrame := PageGotFacts(s, s0, r.value);
    PageGotKeepsSpaces(s, s0, r.value, pcbFrame);
    PgdirAfterPage(s, s0, r.value, pcbFrame, parentPgdir, parent);
    pcb := r.value / PAGE_SIZE;
    r, buffer, bitmap := CopyProcess(m, parentPgdir, guard);
    if !r.Halt? {
      DataStaysTrans(s, s0, m.S());
    }
    if r.Done? {
      SnapshotFrom(s, s0, m.S(), parent, HeapFrame(m.S(), r.value));
      ForkTakes(s, s0, m.S(), parent, pcb, Run(bitmap, BITMAP_PAGES) + {r.value / PAGE_SIZE},
                HeapFrame(m.S(), r.value));
    } else if r.Null? {
      SpacesKeptTrans(s, s0, m.S());
      NoForkTakes(s, s0, m.S(), pcb, buffer);
    }
  }

  /** The page of the PCB comes on top of what the copy took. */
  lemma ForkTakes(s: State, s0: State, w: State, parent: Frame, pcb: int, pages: set<int>, child: Frame)
    requires Gained(s, s0, {pcb}, {}) && Gained(s0, w, pages, {child})
    requires Snapshot(s, w, parent, child) && Settled(s) && Settled(w)
    requires Inv(s) && Inv(w)
    ensures Takes(s, w, {pcb} + pages, {child}) && |{pcb} + pages| == |pages| + 1
  {
    hide Inv, Settled, Gained, Takes;
    var none: set<Frame> := {};
    HeapBound(s);
    GainedTrans(s, s0, w, {pcb}, none, pages, {child});
    assert none + {child} == {child} && pcb in {pcb};
    GainedTakes(s, w, {pcb} + pages, {child});
  }

  /** A fork that ends with NULL has taken the page of the PCB and the buffer, and keeps both. */
  lemma NoForkTakes(s: State, s0: State, w: State, pcb: int, buffer: int)
    requires Gained(s, s0, {pcb}, {}) && Gained(s0, w, {buffer}, {})
    requires Settled(s) && Settled(w)
    requires Inv(s) && Inv(w)
    ensures Takes(s, w, {pcb} + {buffer}, {}) && pcb != buffer
  {
    hide Inv, Settled, Gained, Takes;
    var none: set<Frame> := {};
    HeapBound(s);
    GainedTrans(s, s0, w, {pcb}, none, {buffer}, none);
    assert none + none == none && pcb in {pcb} && buffer in {buffer};
    GainedTakes(s, w, {pcb} + {buffer}, none);
  }

  lemma PgdirAfterPage(s: State, t: State, vaddr: Word, f: Frame, pgdir: Word, d: Frame)
    requires HeapPageGot(s, t, vaddr, f) && IsPgdir(s, pgdir, d)
    requires Inv(s) && Inv(t)
    ensures IsPgdir(t, pgdir, d)
  {
    hide Inv, KEntry, UEntry, Present, FrameOf;
    OldHeapPageStays(s, t, vaddr, f, pgdir / PAGE_SIZE);
  }
}
