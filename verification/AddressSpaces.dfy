/** The memory manager of v1-src/kernel/memory.c as an object: its methods change physical
    memory only through the active directory, as the kernel does. */
module AddressSpaces {
  import opened Common
  import opened Paging
  import opened Vm
  import opened Allocation
  import Bitmaps
  import Boot

  class Machine {
    var mem: Memory
    // The frame in the CR3 register, and the directory frame of the running thread; BOOT_DIR for
    // a thread whose `pgdir` is NULL.
    var cr3: Frame
    var current: Frame
    var kernelBits: seq<bool>
    var userBits: map<Frame, seq<bool>>
    var kernelPool: seq<bool>
    var userPool: seq<bool>
    const userStart: int
    ghost var own: map<Frame, Role>
    ghost var pending: set<(Frame, int)>

    /** The machine after the loader and `mem_init`: one kernel thread on the boot directory. */
    constructor (ram: Memory, allMem: Word)
      requires allMem >= 0x20_0000 && Boot.TablesClear(ram)
      ensures S() == Boot.Started(ram, allMem) && Valid() && Settled(S()) && cr3 == current == BOOT_DIR
      ensures var pages := (allMem - 0x20_0000) / 4096 % 0x1_0000;
              && |kernelPool| == |kernelBits| == 8 * (pages / 2 / 8) && |userPool| == 8 * ((pages - pages / 2) / 8)
              && userStart == 0x200 + pages / 2
      ensures (forall k :: 0 <= k < |kernelPool| ==> !kernelPool[k] && !kernelBits[k])
              && (forall k :: 0 <= k < |userPool| ==> !userPool[k]) && userBits == map[]
      ensures forall x: Word :: x < 0x10_0000 ==>
              Walk(mem, BOOT_DIR, x) == Some(x) && Walk(mem, BOOT_DIR, 0xc000_0000 + x) == Some(x)
    {
      mem, cr3, current := Boot.SetUp(ram), BOOT_DIR, BOOT_DIR;
      userStart := POOL_START + Boot.KernelPages(allMem);
      kernelBits, userBits := Boot.ClearBits(Boot.KernelPages(allMem) / 8), map[];
      kernelPool, userPool := Boot.ClearBits(Boot.KernelPages(allMem) / 8), Boot.ClearBits(Boot.UserPages(allMem) / 8);
      own, pending := map[], {};
      new;
      hide Inv, Settled, Walk;
      Boot.StartedIsGood(ram, allMem);
      Boot.LowMemoryMapped(ram);
    }

    ghost function S(): State
      reads this
    {
      State(mem, kernelBits, userBits, kernelPool, userPool, userStart, own, pending)
    }

    ghost predicate Valid()
      reads this
    {
      && Inv(S())
      && (cr3 in userBits || cr3 == BOOT_DIR)
      && (current in userBits || current == BOOT_DIR)
    }

    /** A pool or the bitmap of the kernel heap has no clear bit. */
    predicate Exhausted()
      reads this
    {
      IsFull(kernelPool) || IsFull(userPool) || IsFull(kernelBits)
    }

    // ---------- access through the active directory ----------

    method Load(vaddr: Word) returns (w: Word)
      requires Walk(mem, cr3, vaddr).Some?
      ensures w == WordAt(mem, Walk(mem, cr3, vaddr).value)
    {
      var paddr := Walk(mem, cr3, vaddr).value;
      w := mem[paddr / PAGE_SIZE][paddr % PAGE_SIZE / 4];
    }

    method Store(vaddr: Word, w: Word)
      requires Walk(mem, cr3, vaddr).Some?
      modifies this`mem
      ensures mem == Stored(old(mem), cr3, vaddr, w)
    {
      var paddr := Walk(mem, cr3, vaddr).value;
      mem := mem[paddr / PAGE_SIZE := mem[paddr / PAGE_SIZE][paddr % PAGE_SIZE / 4 := w]];
    }

    /** `memset(vaddr, 0, PAGE_SIZE)` of one whole page. */
    method ClearPage(vaddr: Word)
      requires Walk(mem, cr3, vaddr).Some?
      modifies this`mem
      ensures mem == old(mem[Walk(mem, cr3, vaddr).value / PAGE_SIZE := ZeroPage()])
    {
      mem := mem[Walk(mem, cr3, vaddr).value / PAGE_SIZE := ZeroPage()];
    }

    /** `memcpy` of n words, from one page to another. */
    method CopyWords(dst: Word, src: Word, n: nat)
      requires Walk(mem, cr3, dst).Some? && Walk(mem, cr3, src).Some?
      requires dst % PAGE_SIZE / 4 + n <= ENTRIES && src % PAGE_SIZE / 4 + n <= ENTRIES
      modifies this`mem
      ensures mem == WordsCopied(old(mem), old(Walk(mem, cr3, dst).value) / PAGE_SIZE, dst % PAGE_SIZE / 4,
                                 old(Walk(mem, cr3, src).value) / PAGE_SIZE, src % PAGE_SIZE / 4, n)
    {
      mem := WordsCopied(mem, Walk(mem, cr3, dst).value / PAGE_SIZE, dst % PAGE_SIZE / 4,
                         Walk(mem, cr3, src).value / PAGE_SIZE, src % PAGE_SIZE / 4, n);
    }

    method AddrV2P(vaddr: Word) returns (paddr: Word)
      requires SelfMapped(mem, cr3) && Present(mem[cr3][PdeIdx(vaddr)])
      ensures paddr == FrameOf(Entry(mem, cr3, vaddr / PAGE_SIZE)) * PAGE_SIZE + vaddr % PAGE_SIZE
    {
      hide Walk, PtePtr, PdePtr, WordAt, Entry, Present, PdeIdx, PteIdx;
      PteReached(mem, cr3, vaddr);
      var pte := Load(PtePtr(vaddr));
      paddr := pte / PAGE_SIZE * PAGE_SIZE + vaddr % PAGE_SIZE;
    }

    // ---------- frames and entries ----------

    method Palloc(pf: PoolFlag) returns (r: Outcome<Frame>)
      requires Sizes(S())
      modifies this`kernelPool, this`userPool, this`own
      ensures Palloced(old(S()), pf, r, S())
    {
      var pool := if pf == PF_KERNEL then kernelPool else userPool;
      if IsFull(pool) {
        return Halt;
      }
      var bitIdx := Bitmaps.FirstFit(pool, 1);
      FirstFitOfRoom(pool);
      var f: Frame;
      if pf == PF_KERNEL {
        kernelPool := kernelPool[bitIdx := true];
        f := POOL_START + bitIdx;
      } else {
        userPool := userPool[bitIdx := true];
        f := userStart + bitIdx;
      }
      own := own[f := Reserved];
      r := Done(f);
    }

    /** The branch of `page_table_add` taken when the directory entry is not present. */
    method AddTableFor(vaddr: Word, ghost paddr: Word) returns (ok: bool)
      requires CanWriteEntry(S(), cr3, vaddr, paddr) && NeedsTable(S(), cr3, vaddr / PAGE_SIZE)
      modifies this`mem, this`kernelPool, this`userPool, this`own
      ensures TableAdded(old(S()), cr3, vaddr, ok, S()) && (!ok ==> IsFull(kernelPool))
    {
      ghost var s := S();
      TableFacts(s, cr3, vaddr, paddr);
      hide TableAdded, CanWriteEntry, NeedsTable, Sizes, IsFull, Walk, PtePtr, PdePtr, WordAt, Stored, KernelHalf;
      hide Present, FrameOf, Entry, PteIdx;
      var pde, pte := PdePtr(vaddr), PtePtr(vaddr);
      SelfMapReachesEntry(mem, cr3, vaddr);
      var r := Palloc(PF_KERNEL);
      if r.Halt? {
        NoTableAdded(s, cr3, vaddr, S());
        return false;
      }
      var table := r.value;
      SelfMapWrites(mem, cr3, vaddr, EntryFor(table));
      Store(pde, table * PAGE_SIZE + 7);
      own := own[table := UserTable(cr3, vaddr / PAGE_SIZE / ENTRIES)];
      NewTableThroughWindow(s.mem, cr3, vaddr, table);
      ClearPage(pte - pte % PAGE_SIZE);
      ThisTableAdded(s, cr3, vaddr, paddr, S());
      return true;
    }

    method PageTableAdd(vaddr: Word, paddr: Word) returns (ok: bool)
      requires CanWriteEntry(S(), cr3, vaddr, paddr)
      modifies this`mem, this`kernelPool, this`userPool, this`own, this`pending
      ensures PageAdded(old(S()), cr3, vaddr / PAGE_SIZE, paddr / PAGE_SIZE) == if ok then Done(S()) else Halt
      ensures !ok ==> IsFull(kernelPool)
      ensures ok ==> UserStoreWalk(mem, cr3, vaddr) == Some(paddr)
    {
      hide UserStoreWalk, Admits, Sizes, IsFull, Walk, PtePtr, PdePtr, WordAt, Stored, KernelHalf, Present, FrameOf;
      hide Entry, PdeIdx, PteIdx;
      ghost var vp, f := vaddr / PAGE_SIZE, paddr / PAGE_SIZE;
      SelfMapReads(mem, cr3, vaddr);
      SelfMapReachesEntry(mem, cr3, vaddr);
      var pde, pte := PdePtr(vaddr), PtePtr(vaddr);
      var dirEntry := Load(pde);
      if !Present(dirEntry) {
        ok := AddTableFor(vaddr, paddr);
        if !ok {
          return;
        }
      }
      SelfMapReads(mem, cr3, vaddr);
      SelfMapReachesEntry(mem, cr3, vaddr);
      SelfMapWrites(mem, cr3, vaddr, EntryFor(f));
      var entry := Load(pte);
      assert !Present(entry);
      ghost var before := mem;
      AddedPage(before, cr3, vaddr, f);
      Store(pte, paddr + 7);
      own := own[f := RoleAt(SpaceOf(cr3, vp), vp)];
      pending := pending - {(SpaceOf(cr3, vp), vp)};
      return true;
    }

    // ---------- runs of pages ----------

    /** The loops of `vaddr_get` over `bitmap_set`: a bit past the map is the one behind it. */
    static method SetBits(bits: seq<bool>, guard: bool, first: int, cnt: nat) returns (r: seq<bool>, behind: bool)
      requires 0 <= first <= |bits| && first + cnt <= |bits| + 1
      ensures r == SetRange(bits, first, cnt, true) && behind == (guard || first + cnt > |bits|)
    {
      r, behind := bits, guard;
      var n := 0;
      while n < cnt
        invariant 0 <= n <= cnt
        invariant r == SetRange(bits, first, n, true) && behind == (guard || first + n > |bits|)
      {
        if first + n < |bits| {
          r := r[first + n := true];
        } else {
          behind := true;
        }
        n := n + 1;
      }
    }

    /** `vaddr_get`; `guard` is the bit behind the map, which the scan looks at and which is set too when
        the run that is found ends in it. */
    method VaddrGet(pf: PoolFlag, cnt: nat, guard: bool) returns (r: Outcome<Word>, behind: bool)
      requires cnt > 0 && Sizes(S()) && BOOT_DIR !in userBits
      requires pf == PF_USER ==> current in userBits
      modifies this`kernelBits, this`userBits, this`pending
      ensures var bits := old(BitsOf(S(), PoolSpace(current, pf)));
              if IsFull(bits) || Bitmaps.ScanExact(bits, guard, cnt)
              then behind == guard && RunReserved(old(S()), PoolSpace(current, pf), pf, cnt, r, S())
              else behind && RunOverrun(old(S()), PoolSpace(current, pf), pf, cnt, r, S())
      ensures pf == PF_KERNEL && r.Halt? ==> IsFull(kernelBits)
    {
      hide RunReserved, RunOverrun, IsFull, Bitmaps.ScanExact, Bitmaps.ScanResult, Bitmaps.Clear;
      behind := guard;
      ghost var s, d := S(), PoolSpace(current, pf);
      var bits := if pf == PF_KERNEL then kernelBits else userBits[current];
      if IsFull(bits) {
        NoRunReserved(s, d, pf, cnt, Halt);
        return Halt, guard;
      }
      var bitIdxStart := Bitmaps.ScanResult(bits, guard, cnt);
      Bitmaps.ScanIsFirstFitIff(bits, guard, cnt);
      if bitIdxStart == -1 {
        NoRunReserved(s, d, pf, cnt, Null);
        return Null, guard;
      }
      ghost var before := bits;
      bits, behind := SetBits(bits, guard, bitIdxStart, cnt);
      pending := pending + Range(d, FirstPage(d) + bitIdxStart, cnt);
      if pf == PF_KERNEL {
        kernelBits := bits;
        r := Done((KERNEL_HEAP + bitIdxStart) * PAGE_SIZE);
      } else {
        userBits := userBits[current := bits];
        r := if USER_START + bitIdxStart < KERNEL_BASE - 1 then Done((USER_START + bitIdxStart) * PAGE_SIZE) else Halt;
      }
      if Bitmaps.ScanExact(before, guard, cnt) {
        ThisRunReserved(s, d, pf, cnt, r, S());
      } else {
        ThisRunOverrun(s, d, pf, cnt, r, S());
      }
    }

    /** A frame is taken and mapped at a page whose bit is already set:
        `get_a_page_without_opvaddrbitmap`, and one round of the loop of `malloc_page`. */
    method GetAPageWithoutBitmap(pf: PoolFlag, vaddr: Word, ghost left: nat) returns (ok: bool)
      requires vaddr % PAGE_SIZE == 0 && left > 0
      requires IsPendingRun(S(), cr3, pf, vaddr / PAGE_SIZE, left) && Inv(S())
      modifies this`mem, this`kernelPool, this`userPool, this`own, this`pending
      ensures OneMapped(old(S()), cr3, pf, vaddr / PAGE_SIZE) == if ok then Done(S()) else Halt
      ensures !ok ==> Exhausted()
    {
      hide Inv, Sizes, MapRun, OneMapped, IsPendingRun, PageAdded, IsFull, CanWriteEntry;
      ghost var t, vp := S(), vaddr / PAGE_SIZE;
      MapRunStep(t, cr3, pf, vp, left);
      SizesOf(t);
      var frame := Palloc(pf);
      if frame.Halt? {
        return false;
      }
      ReservedFrameCanBeMapped(t, cr3, pf, vp, left, frame.value);
      ok := PageTableAdd(vaddr, frame.value * PAGE_SIZE);
    }

    /** The loop of `malloc_page`. */
    method MapPages(pf: PoolFlag, start: Word, cnt: nat) returns (ok: bool)
      requires start % PAGE_SIZE == 0 && start / PAGE_SIZE + cnt <= FRAMES
      requires IsPendingRun(S(), cr3, pf, start / PAGE_SIZE, cnt) && Inv(S())
      modifies this`mem, this`kernelPool, this`userPool, this`own, this`pending
      ensures MapRun(old(S()), cr3, pf, start / PAGE_SIZE, cnt) == if ok then Done(S()) else Halt
      ensures !ok ==> Exhausted()
    {
      hide Inv, Sizes, MapRun, OneMapped, IsPendingRun, IsFull;
      ghost var s, first := S(), start / PAGE_SIZE;
      var left, vaddr: int := cnt, start;
      while left > 0
        invariant 0 <= left <= cnt && vaddr == (first + cnt - left) * PAGE_SIZE
        invariant Inv(S()) && IsPendingRun(S(), cr3, pf, first + cnt - left, left)
        invariant MapRun(S(), cr3, pf, first + cnt - left, left) == MapRun(s, cr3, pf, first, cnt)
      {
        ghost var t, vp := S(), first + cnt - left;
        MapRunStep(t, cr3, pf, vp, left);
        ok := GetAPageWithoutBitmap(pf, vaddr, left);
        if !ok {
          return;
        }
        RoundDone(t, cr3, pf, vp, left, S());
        left := left - 1;
        vaddr := vaddr + PAGE_SIZE;
      }
      MapRunEnds(S(), cr3, pf, first + cnt);
      return true;
    }

    /** `malloc_page`, when the bit behind the map does not lead the scan out of the space. */
    method MallocPage(pf: PoolFlag, cnt: nat, guard: bool) returns (r: Outcome<Word>)
      requires 0 < cnt < MAX_PAGES
      requires Bitmaps.ScanExact(BitsOf(S(), PoolSpace(current, pf)), guard, cnt)
      requires pf == PF_USER ==> cr3 == current && current in userBits
      requires Settled(S()) && Valid()
      modifies this`mem, this`kernelBits, this`userBits, this`kernelPool, this`userPool, this`own, this`pending
      ensures PagesMalloced(old(S()), cr3, pf, cnt, r, S())
      ensures pf == PF_KERNEL && r.Halt? ==> Exhausted()
      ensures !r.Halt? ==> Valid() && Settled(S())
    {
      hide Inv, Sizes, Settled, MapRun, OneMapped, IsPendingRun, IsFull, Reserve, MapsExactly;
      ghost var s, d := S(), PoolSpace(cr3, pf);
      SizesOf(s);
      BootIsNoUserDir(s);
      var behind;
      r, behind := VaddrGet(pf, cnt, guard);
      if r.Done? {
        ghost var first := FirstRun(s, d, cnt);
        FirstRunIsRange(s, d, cnt);
        ReserveKeepsInv(s, d, first, cnt);
        ReservedIsPending(s, cr3, pf, first, cnt);
        MallocPageIsRun(s, cr3, pf, cnt);
        hide IsRange, Allocation.MallocPage;
        var ok := MapPages(pf, r.value, cnt);
        if !ok {
          return Halt;
        }
        ghost var u := MallocPageMapsItsRun(s, cr3, pf, cnt);
        MapsExactlyKeepsBits(Reserve(s, d, first, cnt), u, d, first, cnt);
      }
    }

    /** `get_a_page`: one page at a given address, whose bit is set first. The source panics unless a
        process asks for a user page or a kernel thread for a kernel page, asserts that the page is
        not the first of its space, and that it is not mapped. */
    method GetAPage(pf: PoolFlag, vaddr: Word) returns (r: Outcome<Word>)
      requires vaddr % PAGE_SIZE == 0 && cr3 == current
      requires (pf == PF_USER <==> current != BOOT_DIR) ==> CanGet(S(), current, pf, vaddr / PAGE_SIZE)
      requires Settled(S()) && Valid()
      modifies this`mem, this`kernelBits, this`userBits, this`kernelPool, this`userPool, this`own, this`pending
      ensures !r.Null? && (r.Done? ==> (pf == PF_USER <==> current != BOOT_DIR) && r.value == vaddr)
      ensures r.Halt? ==> (pf == PF_USER) != (current != BOOT_DIR) || Exhausted()
      ensures (pf == PF_USER <==> current != BOOT_DIR) ==>
                GetsPage(old(S()), current, pf, vaddr / PAGE_SIZE, if r.Done? then Done(S()) else Halt)
      ensures r.Done? ==> MapsOne(old(S()), S(), PoolSpace(current, pf), vaddr / PAGE_SIZE)
      ensures r.Done? ==> Valid() && Settled(S())
    {
      hide Inv, Sizes, Settled, MapRun, OneMapped, IsPendingRun, IsFull, Reserve, MapsExactly, IsRange;
      if (pf == PF_USER) != (current != BOOT_DIR) {
        return Halt;
      }
      ghost var s, d, vp := S(), PoolSpace(current, pf), vaddr / PAGE_SIZE;
      BootIsNoUserDir(s);
      SizesOf(s);
      RangeOfOne(s, d, vp);
      assert Bitmaps.Clear(BitsOf(s, d), vp - FirstPage(d), 1);
      ReserveKeepsInv(s, d, vp, 1);
      ReservedIsPending(s, cr3, pf, vp, 1);
      if pf == PF_USER {
        var bitIdx := vaddr / PAGE_SIZE - USER_START;
        assert bitIdx > 0;
        userBits := userBits[current := userBits[current][bitIdx := true]];
      } else {
        var bitIdx := vaddr / PAGE_SIZE - KERNEL_HEAP;
        assert bitIdx > 0;
        kernelBits := kernelBits[bitIdx := true];
      }
      pending := pending + Range(d, vp, 1);
      OneReserved(s, d, vp);
      var ok := MapPages(pf, vaddr, 1);
      if !ok {
        return Halt;
      }
      ghost var u := PageGotIsExact(s, cr3, pf, vp);
      MapsExactlyKeepsBits(Reserve(s, d, vp, 1), u, d, vp, 1);
      r := Done(vaddr);
    }

    // ---------- freeing ----------

    method Pfree(paddr: Word)
      requires Sizes(S()) && (InKernelPool(S(), paddr / PAGE_SIZE) || InUserPool(S(), paddr / PAGE_SIZE))
      requires paddr % PAGE_SIZE == 0
      modifies this`kernelPool, this`userPool, this`own
      ensures S() == old(S()).(kernelPool := PoolWith(old(kernelPool), paddr / PAGE_SIZE - POOL_START, false),
                               userPool := PoolWith(old(userPool), paddr / PAGE_SIZE - userStart, false),
                               own := old(own) - {paddr / PAGE_SIZE})
    {
      if paddr >= userStart * PAGE_SIZE {
        userPool := userPool[(paddr - userStart * PAGE_SIZE) / PAGE_SIZE := false];
      } else {
        kernelPool := kernelPool[(paddr - POOL_START * PAGE_SIZE) / PAGE_SIZE := false];
      }
      own := own - {paddr / PAGE_SIZE};
    }

    method PageTablePteRemove(vaddr: Word)
      requires SelfMapped(mem, cr3) && Present(mem[cr3][PdeIdx(vaddr)])
      modifies this`mem
      ensures mem == WithEntry(old(mem), old(FrameOf(mem[cr3][PdeIdx(vaddr)])), PteIdx(vaddr),
                               WithoutPresent(old(Entry(mem, cr3, vaddr / PAGE_SIZE))))
      ensures var t, i := old(FrameOf(mem[cr3][PdeIdx(vaddr)])), PteIdx(vaddr);
              && mem[t][i] == old(mem)[t][i] - old(mem)[t][i] % 2
              && (forall j: Index :: j != i ==> mem[t][j] == old(mem)[t][j])
              && (forall f: Frame :: f != t ==> mem[f] == old(mem)[f])
    {
      hide Walk, PtePtr, PdePtr, WordAt, Stored, Entry, Present, FrameOf, PdeIdx, PteIdx;
      SelfMapReads(mem, cr3, vaddr);
      SelfMapReachesEntry(mem, cr3, vaddr);
      SelfMapWrites(mem, cr3, vaddr, WithoutPresent(Entry(mem, cr3, vaddr / PAGE_SIZE)));
      var pte := PtePtr(vaddr);
      var entry := Load(pte);
      Store(pte, entry - entry % 2);
      EntryCleared(old(mem), cr3, vaddr);
    }

    /** One round of the loops of `mfree_page`; `d` is the space of the page. */
    method FreeOnePage(vaddr: Word, ghost d: Frame)
      requires CanClearEntry(S(), cr3, d, vaddr)
      modifies this`mem, this`kernelPool, this`userPool, this`own, this`pending
      ensures S() == Unmap(old(S()), d, vaddr / PAGE_SIZE)
    {
      ghost var e := Entry(mem, cr3, vaddr / PAGE_SIZE);
      assert POOL_START <= FrameOf(e) && if d == BOOT_DIR then FrameOf(e) < userStart else userStart <= FrameOf(e);
      hide Sizes, Walk, PtePtr, PdePtr, WordAt, Stored, Entry, At, Present, FrameOf;
      var paddr := AddrV2P(vaddr);
      assert paddr % PAGE_SIZE == 0 && paddr >= 0x102000;
      assert if d == BOOT_DIR then POOL_START * PAGE_SIZE <= paddr < userStart * PAGE_SIZE
          else paddr >= userStart * PAGE_SIZE;
      Pfree(paddr);
      PageTablePteRemove(vaddr);
      pending := pending + {(d, vaddr / PAGE_SIZE)};
    }

    /** `vaddr_remove`. */
    method VaddrRemove(pf: PoolFlag, vaddr: Word, cnt: nat)
      requires IsRange(S(), PoolSpace(current, pf), vaddr / PAGE_SIZE, cnt) && BOOT_DIR !in userBits
      requires pf == PF_USER ==> current in userBits
      modifies this`kernelBits, this`userBits, this`pending
      ensures S() == Release(old(S()), PoolSpace(current, pf), vaddr / PAGE_SIZE, cnt)
    {
      ghost var d := PoolSpace(current, pf);
      var bits := if pf == PF_KERNEL then kernelBits else userBits[current];
      var bitIdxStart := vaddr / PAGE_SIZE - if pf == PF_KERNEL then KERNEL_HEAP else USER_START;
      ghost var before := bits;
      var n := 0;
      while n < cnt
        invariant 0 <= n <= cnt
        invariant bits == SetRange(before, bitIdxStart, n, false)
      {
        bits := bits[bitIdxStart + n := false];
        n := n + 1;
      }
      pending := pending - Range(d, vaddr / PAGE_SIZE, cnt);
      if pf == PF_KERNEL {
        kernelBits := bits;
      } else {
        userBits := userBits[current := bits];
      }
    }

    /** `mfree_page`: the first frame's pool decides which of two identical loops runs, and the
        assertions of both hold in every round. */
    method MFreePage(pf: PoolFlag, vaddr: Word, cnt: nat)
      requires cnt >= 1 && vaddr % PAGE_SIZE == 0
      requires pf == PF_USER ==> cr3 == current && current in userBits
      requires CanFree(S(), PoolSpace(current, pf), vaddr / PAGE_SIZE, cnt)
      requires Settled(S()) && Valid()
      modifies this`mem, this`kernelBits, this`userBits, this`kernelPool, this`userPool, this`own, this`pending
      ensures S() == Allocation.MFreePage(old(S()), PoolSpace(current, pf), vaddr / PAGE_SIZE, cnt)
      ensures Valid() && Settled(S())
    {
      hide Inv, Sizes, Settled, CanFree, UnmapRun, Unmap, CanClearEntry, UnmapsExactly, IsRange, Release;
      ghost var s, d, first := S(), PoolSpace(current, pf), vaddr / PAGE_SIZE;
      BootIsNoUserDir(s);
      var v: int, pageCnt := vaddr, 0;
      UnmapRunStarts(s, d, first, cnt);
      while pageCnt < cnt
        invariant 0 <= pageCnt <= cnt && v == vaddr + pageCnt * PAGE_SIZE
        invariant Inv(S()) && SameBits(s, S()) && CanFree(S(), d, first + pageCnt, cnt - pageCnt)
        invariant UnmapRun(S(), d, first + pageCnt, cnt - pageCnt) == UnmapRun(s, d, first, cnt)
      {
        ghost var t, vp, left := S(), first + pageCnt, cnt - pageCnt;
        CanFreeIsVPage(t, d, vp, left);
        MappedPageCanBeCleared(t, cr3, d, vp, left);
        FreeOnePage(v, d);
        UnmapRound(t, d, vp, left);
        v := v + PAGE_SIZE;
        pageCnt := pageCnt + 1;
      }
      UnmapRunEnds(S(), d, first + cnt);
      ghost var t := MFreePageUnmapsItsRun(s, d, first, cnt);
      VaddrRemove(pf, vaddr, cnt);
    }
  }

  /** A user program may store to a page once its entry is written. */
  lemma AddedPage(mem: Memory, dir: Frame, vaddr: Word, f: Frame)
    requires Admits(mem[dir][PdeIdx(vaddr)]) && FrameOf(mem[dir][PdeIdx(vaddr)]) != dir && vaddr % PAGE_SIZE == 0
    ensures UserStoreWalk(WithEntry(mem, FrameOf(mem[dir][PdeIdx(vaddr)]), PteIdx(vaddr), EntryFor(f)), dir, vaddr)
            == Some(f * PAGE_SIZE)
  {
    hide Admits, Present, FrameOf, PdeIdx, PteIdx;
  }

  /** The page-table entry is read through the window. */
  lemma PteReached(mem: Memory, dir: Frame, vaddr: Word)
    requires SelfMapped(mem, dir) && Present(mem[dir][PdeIdx(vaddr)])
    ensures Walk(mem, dir, PtePtr(vaddr)).Some?
            && WordAt(mem, Walk(mem, dir, PtePtr(vaddr)).value) == Entry(mem, dir, vaddr / PAGE_SIZE)
  {
    SelfMapReachesEntry(mem, dir, vaddr);
    SelfMapReads(mem, dir, vaddr);
  }

  /** What adding a page table relies on. */
  lemma TableFacts(s: State, dir: Frame, vaddr: Word, paddr: Word)
    requires CanWriteEntry(s, dir, vaddr, paddr) && NeedsTable(s, dir, vaddr / PAGE_SIZE)
    ensures Sizes(s) && SelfMapped(s.mem, dir) && PdeIdx(vaddr) != 1023 && vaddr / PAGE_SIZE / ENTRIES == PdeIdx(vaddr)
    ensures !IsFull(s.kernelPool) ==> FirstFree(s, PF_KERNEL) != dir
  {
  }

  lemma NoTableAdded(s: State, dir: Frame, vaddr: Word, t: State)
    requires IsFull(s.kernelPool)
    ensures TableAdded(s, dir, vaddr, false, t)
  {
  }

  lemma ThisTableAdded(s: State, dir: Frame, vaddr: Word, paddr: Word, t: State)
    requires CanWriteEntry(s, dir, vaddr, paddr) && NeedsTable(s, dir, vaddr / PAGE_SIZE) && !IsFull(s.kernelPool)
    requires var f := FirstFree(s, PF_KERNEL);
             0 <= f < FRAMES && t == AddTable(Take(s, f), dir, PdeIdx(vaddr), f)
    ensures TableAdded(s, dir, vaddr, true, t)
  {
    hide Sizes, IsFull, FirstFree, Walk, PtePtr;
    NewTableThroughWindow(s.mem, dir, vaddr, FirstFree(s, PF_KERNEL));
  }

  lemma OneReserved(s: State, d: Frame, vp: int)
    requires IsRange(s, d, vp, 1)
    ensures Reserve(s, d, vp, 1) == WithBits(s, d, BitsOf(s, d)[vp - FirstPage(d) := true], s.pending + Range(d, vp, 1))
  {
    assert SetRange(BitsOf(s, d), vp - FirstPage(d), 1, true) == BitsOf(s, d)[vp - FirstPage(d) := true];
  }

  lemma EntryCleared(mem: Memory, dir: Frame, vaddr: Word)
    requires Present(mem[dir][PdeIdx(vaddr)])
    ensures var t, i := FrameOf(mem[dir][PdeIdx(vaddr)]), PteIdx(vaddr);
            var mem' := WithEntry(mem, t, i, WithoutPresent(Entry(mem, dir, vaddr / PAGE_SIZE)));
            && mem'[t][i] == mem[t][i] - mem[t][i] % 2
            && (forall j: Index :: j != i ==> mem'[t][j] == mem[t][j])
            && (forall f: Frame :: f != t ==> mem'[f] == mem[f])
  {
    PageOfTable(vaddr);
  }
}
