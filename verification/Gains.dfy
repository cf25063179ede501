/** What a call has taken from the kernel heap and from the two pools: which pages, which frames, and
    nothing else (v1-src/kernel/memory.c:186-222, v1-src/kernel/memory.c:437-467). */
module Gains {
  import opened Common
  import opened Paging
  import opened Vm
  import opened Allocation
  import opened Fork
  import Bitmaps

  /** A kernel page is mapped in both states, to the same frame, or in neither. */
  ghost predicate SameMapping(s: State, t: State, vp: int) {
    && (Present(KEntry(t.mem, vp)) <==> Present(KEntry(s.mem, vp)))
    && (Present(KEntry(s.mem, vp)) ==> KEntry(t.mem, vp) == KEntry(s.mem, vp))
  }

  /** The heap has exactly these pages more: their bits were clear, every other bit and mapping is as it
      was. */
  ghost predicate HeapGained(s: State, t: State, pages: set<int>) {
    && |t.kernelBits| == |s.kernelBits|
    && (forall vp :: vp in pages ==> InHeap(s, vp) && !s.kernelBits[vp - KERNEL_HEAP])
    && (forall vp :: InHeap(s, vp) ==>
          (t.kernelBits[vp - KERNEL_HEAP] <==> s.kernelBits[vp - KERNEL_HEAP] || vp in pages))
    && (forall vp :: IsKernelVp(vp) && vp !in pages ==> SameMapping(s, t, vp))
  }

  predicate IsGained(role: Role, pages: set<int>, spaces: set<Frame>) {
    match role
    case Reserved => false
    case KernelPage(vp) => vp in pages
    case UserPage(d, _) => d in spaces
    case UserTable(d, _) => d in spaces
  }

  /** Frames in use keep their use, and those newly in use are for these heap pages and spaces. */
  ghost predicate RolesGained(s: State, t: State, pages: set<int>, spaces: set<Frame>) {
    && (forall f :: f in s.own ==> f in t.own && t.own[f] == s.own[f])
    && (forall f :: f in t.own && f !in s.own ==> IsGained(t.own[f], pages, spaces))
    && |t.kernelPool| == |s.kernelPool| && |t.userPool| == |s.userPool| && t.userStart == s.userStart
  }

  ghost predicate Gained(s: State, t: State, pages: set<int>, spaces: set<Frame>) {
    HeapGained(s, t, pages) && RolesGained(s, t, pages, spaces)
  }

  /** Every frame of data is still in use for data and has the same contents. */
  ghost predicate DataStays(s: State, t: State) {
    forall f: Frame :: IsData(s, f) ==> IsData(t, f) && t.mem[f] == s.mem[f]
  }

  lemma DataStaysTrans(s: State, t: State, u: State)
    requires DataStays(s, t) && DataStays(t, u)
    ensures DataStays(s, u)
  {
    hide IsData;
  }

  predicate IsIn(vp: int, first: int, n: int) { first <= vp < first + n }

  function Run(first: int, n: nat): (r: set<int>)
    ensures forall vp :: vp in r <==> first <= vp < first + n
  {
    set vp | first <= vp < first + n && IsIn(vp, first, n)
  }

  lemma GainedTrans(s: State, t: State, u: State, ps: set<int>, ds: set<Frame>, qs: set<int>, es: set<Frame>)
    requires Gained(s, t, ps, ds) && Gained(t, u, qs, es)
    requires KERNEL_HEAP + |s.kernelBits| <= SELF * ENTRIES
    ensures Gained(s, u, ps + qs, ds + es) && ps !! qs
  {
    hide KEntry, Present;
    forall vp ensures vp !in ps || vp !in qs {
      assert vp in ps ==> InHeap(s, vp);
    }
    assert HeapGained(s, u, ps + qs) by { hide RolesGained; }
    hide HeapGained;
  }

  lemma NothingMore(s: State, t: State, u: State, ps: set<int>, ds: set<Frame>)
    requires Gained(s, t, ps, ds) && Gained(t, u, {}, {})
    requires KERNEL_HEAP + |s.kernelBits| <= SELF * ENTRIES
    ensures Gained(s, u, ps, ds)
  {
    hide Gained;
    GainedTrans(s, t, u, ps, ds, {}, {});
    assert ps + {} == ps && ds + {} == ds;
  }

  /** Pages of a run whose bits were clear, after `malloc_page`. */
  lemma MappedIsGained(s: State, u: State, first: int, n: nat)
    requires IsRange(s, BOOT_DIR, first, n) && MapsExactly(Reserve(s, BOOT_DIR, first, n), u, BOOT_DIR, first, n)
    requires Bitmaps.Clear(s.kernelBits, first - KERNEL_HEAP, n)
    requires Inv(s) && Inv(u)
    ensures Gained(s, u, Run(first, n), {})
  {
    BootIsNoUserDir(u);
    RolesAreRight(u);
    hide Inv, KEntry, Present, FrameOf, DataKept, UEntry, HeapGained, RolesGained;
    MappedHeap(s, u, first, n);
    MappedRoles(s, u, first, n);
  }

  lemma MappedHeap(s: State, u: State, first: int, n: nat)
    requires IsRange(s, BOOT_DIR, first, n) && MapsExactly(Reserve(s, BOOT_DIR, first, n), u, BOOT_DIR, first, n)
    requires Bitmaps.Clear(s.kernelBits, first - KERNEL_HEAP, n)
    ensures HeapGained(s, u, Run(first, n))
  {
    hide KEntry, Present, FrameOf, DataKept, UEntry, OwnGrows;
  }

  lemma MappedRoles(s: State, u: State, first: int, n: nat)
    requires IsRange(s, BOOT_DIR, first, n) && MapsExactly(Reserve(s, BOOT_DIR, first, n), u, BOOT_DIR, first, n)
    requires BOOT_DIR !in u.userBits
    requires forall f :: f in u.own && u.own[f].UserTable? ==> u.own[f].dir in u.userBits
    requires forall f :: f in u.own && u.own[f].UserPage? ==> u.own[f].dir in u.userBits
    ensures RolesGained(s, u, Run(first, n), {})
  {
    hide KEntry, Present, FrameOf, DataKept, UEntry, EntriesExcept;
  }

  /** The pages that `malloc_page` finds for the heap, filled with anything. */
  lemma FilledIsGained(s: State, u: State, t: State, n: nat)
    requires n > 0 && FirstRun(s, BOOT_DIR, n) >= KERNEL_HEAP && IsRange(s, BOOT_DIR, FirstRun(s, BOOT_DIR, n), n)
    requires MapsExactly(Reserve(s, BOOT_DIR, FirstRun(s, BOOT_DIR, n), n), u, BOOT_DIR, FirstRun(s, BOOT_DIR, n), n)
    requires t == u.(mem := t.mem) && SameEntries(u, t.mem)
    requires Inv(s) && Inv(u)
    ensures Gained(s, t, Run(FirstRun(s, BOOT_DIR, n), n), {})
  {
    SizesOf(s);
    FirstRunIsRange(s, BOOT_DIR, n);
    hide Inv, Gained, Sizes, MapsExactly, SameEntries, Reserve, Bitmaps.FirstFit, Bitmaps.Clear;
    var first := FirstRun(s, BOOT_DIR, n);
    MappedIsGained(s, u, first, n);
    DataGains(u, t);
    HeapBound(s);
    NothingMore(s, u, t, Run(first, n), {});
  }

  lemma HeapBound(s: State)
    requires Inv(s)
    ensures KERNEL_HEAP + |s.kernelBits| <= SELF * ENTRIES
  {
  }

  /** A page table belongs to a space there is. */
  lemma RolesAreRight(s: State)
    requires Inv(s)
    ensures forall f :: f in s.own && s.own[f].UserTable? ==> s.own[f].dir in s.userBits
    ensures forall f :: f in s.own && s.own[f].UserPage? ==> s.own[f].dir in s.userBits
  {
    hide KernelOk, UserOk, DirsOk, TablesOk, PendingOk, RightsOk, KEntry, UEntry;
    assert forall f :: f in s.own ==> RoleOk(s, f);
  }

  /** Stores to data take nothing. */
  lemma DataGains(s: State, t: State)
    requires t == s.(mem := t.mem) && SameEntries(s, t.mem)
    ensures Gained(s, t, {}, {})
  {
    hide KEntry, UEntry, Present;
  }

  lemma AdoptGains(s: State, child: Frame, bits: seq<bool>)
    ensures Gained(s, Adopt(s, child, bits), {}, {})
  {
    hide KEntry, Present;
  }

  lemma CopiedParts(s: State, t: State, parent: Frame, child: Frame, buf: Frame)
    requires CopiedUpTo(s, t, parent, child, buf, KERNEL_BASE)
    ensures SameBits(s, t) && child in s.userBits
    ensures EntriesExcept(s, t.mem, child, USER_START, KERNEL_BASE - USER_START)
    ensures OwnGrows(s, t, child, USER_START, KERNEL_BASE - USER_START)
  {
    hide EntriesExcept, OwnGrows, SameBits;
  }

  /** The copy takes frames for the child's pages and tables only. */
  lemma CopyGains(s: State, t: State, parent: Frame, child: Frame, buf: Frame)
    requires CopiedUpTo(s, t, parent, child, buf, KERNEL_BASE)
    requires Inv(s)
    ensures Gained(s, t, {}, {child})
  {
    BootIsNoUserDir(s);
    CopiedParts(s, t, parent, child, buf);
    hide Inv, CopiedUpTo, EntriesExcept, OwnGrows, SameBits, HeapGained, RolesGained;
    NoHeapGained(s, t, child, USER_START, KERNEL_BASE - USER_START);
    SpaceRoles(s, t, child, USER_START, KERNEL_BASE - USER_START);
  }

  lemma NoHeapGained(s: State, t: State, d: Frame, first: int, n: nat)
    requires SameBits(s, t) && EntriesExcept(s, t.mem, d, first, n) && d != BOOT_DIR
    ensures HeapGained(s, t, {})
  {
    hide KEntry, UEntry, Present;
  }

  lemma SpaceRoles(s: State, t: State, d: Frame, first: int, n: nat)
    requires OwnGrows(s, t, d, first, n) && SameBits(s, t) && d != BOOT_DIR
    ensures RolesGained(s, t, {}, {d})
  {
  }

  /** The copy overwrites the buffer and no other page of data. */
  lemma CopyKeepsData(s: State, t: State, parent: Frame, child: Frame, buf: Frame)
    requires CopiedUpTo(s, t, parent, child, buf, KERNEL_BASE)
    ensures forall f: Frame :: IsData(s, f) && f != buf ==> IsData(t, f) && t.mem[f] == s.mem[f]
  {
    CopiedParts(s, t, parent, child, buf);
    hide EntriesExcept;
  }

  lemma AdoptKeepsData(s: State, child: Frame, bits: seq<bool>)
    ensures forall f: Frame :: IsData(s, f) && f != child ==>
            IsData(Adopt(s, child, bits), f) && Adopt(s, child, bits).mem[f] == s.mem[f]
  {
  }

  /** Giving back a page keeps every other page of data. */
  lemma FreeKeepsData(t: State, vp: int)
    requires CanFree(t, BOOT_DIR, vp, 1) && Settled(t)
    requires Inv(t)
    ensures forall f: Frame :: IsData(t, f) && !IsRoleIn(t.own[f], BOOT_DIR, vp, 1) ==>
            IsData(MFreePage(t, BOOT_DIR, vp, 1), f) && MFreePage(t, BOOT_DIR, vp, 1).mem[f] == t.mem[f]
  {
    BootIsNoUserDir(t);
    hide Inv, Settled, CanFree, MFreePage, EntriesExcept, IsRange;
    var u := MFreePageUnmapsItsRun(t, BOOT_DIR, vp, 1);
  }

  lemma FreedHeap(s: State, t: State, u: State, w: State, vp: int, pages: set<int>)
    requires HeapGained(s, t, pages) && vp in pages && !Present(KEntry(s.mem, vp))
    requires SameBits(t, u) && EntriesExcept(t, u.mem, BOOT_DIR, vp, 1) && !Present(KEntry(u.mem, vp))
    requires IsRange(u, BOOT_DIR, vp, 1) && w == Release(u, BOOT_DIR, vp, 1)
    ensures HeapGained(s, w, pages - {vp})
  {
    hide KEntry, UEntry, Present, FrameOf;
  }

  lemma FreedRoles(s: State, t: State, w: State, vp: int, pages: set<int>, spaces: set<Frame>)
    requires RolesGained(s, t, pages, spaces)
    requires forall f :: f in w.own <==> f in t.own && !IsRoleIn(t.own[f], BOOT_DIR, vp, 1)
    requires forall f :: f in w.own ==> w.own[f] == t.own[f]
    requires forall f :: f in s.own ==> !IsRoleIn(s.own[f], BOOT_DIR, vp, 1)
    requires |w.kernelPool| == |t.kernelPool| && |w.userPool| == |t.userPool| && w.userStart == t.userStart
    ensures RolesGained(s, w, pages - {vp}, spaces)
  {
  }

  /** No frame in use is for a page whose bit is clear, and none for user pages of the boot directory. */
  lemma NoRoleThere(s: State, vp: int)
    requires InHeap(s, vp) && !s.kernelBits[vp - KERNEL_HEAP] && Settled(s)
    requires Inv(s)
    ensures !Present(KEntry(s.mem, vp))
    ensures forall f :: f in s.own ==> !IsRoleIn(s.own[f], BOOT_DIR, vp, 1)
  {
    HeapBitIff(s, vp);
    HeapRolesAreMapped(s);
    BootIsNoUserDir(s);
    RolesAreRight(s);
    hide Inv, Settled, KEntry, Present;
  }

  /** Giving back a page that was gained. */
  lemma FreedAgain(s: State, t: State, w: State, vp: int, pages: set<int>, spaces: set<Frame>)
    requires Gained(s, t, pages, spaces) && vp in pages
    requires CanFree(t, BOOT_DIR, vp, 1) && w == MFreePage(t, BOOT_DIR, vp, 1)
    requires Settled(s) && Settled(t) && Inv(s) && Inv(t)
    ensures Gained(s, w, pages - {vp}, spaces)
  {
    assert InHeap(s, vp) && !s.kernelBits[vp - KERNEL_HEAP] && IsKernelVp(vp) by { hide RolesGained; SizesOf(s); }
    hide Inv, Settled, KEntry, UEntry, Present, FrameOf, CanFree, MFreePage, HeapGained, RolesGained, EntriesExcept;
    var u := MFreePageUnmapsItsRun(t, BOOT_DIR, vp, 1);
    NoRoleThere(s, vp);
    assert At(u.mem, BOOT_DIR, vp) == KEntry(u.mem, vp);
    FreedHeap(s, t, u, w, vp, pages);
    FreedRoles(s, t, w, vp, pages, spaces);
  }

  lemma HeapBitIff(s: State, vp: int)
    requires InHeap(s, vp) && Settled(s)
    requires Inv(s)
    ensures Present(KEntry(s.mem, vp)) <==> s.kernelBits[vp - KERNEL_HEAP]
  {
    hide OwnOk, TablesOk, DirsOk, UserOk, PendingOk, RightsOk, KEntry, Present;
  }

  lemma HeapRolesAreMapped(s: State)
    requires Inv(s)
    ensures forall f :: f in s.own && s.own[f].KernelPage? ==> Present(KEntry(s.mem, s.own[f].vp))
  {
    hide KernelOk, UserOk, DirsOk, TablesOk, PendingOk, RightsOk, KEntry, UEntry, Present;
    assert forall f :: f in s.own ==> RoleOk(s, f);
  }

  lemma MoreSpaces(s: State, t: State, pages: set<int>, spaces: set<Frame>, d: Frame)
    requires Gained(s, t, pages, spaces)
    ensures Gained(s, t, pages, spaces + {d})
  {
    hide HeapGained;
  }

  lemma {:induction false} RunSize(first: int, n: nat)
    ensures |Run(first, n)| == n
  {
    if n == 0 {
      assert Run(first, 0) == {};
    } else {
      RunSize(first, n - 1);
      assert Run(first, n) == Run(first, n - 1) + {first + n - 1};
    }
  }

  // ---------- the pools ----------

  /** The frame of one of these heap pages, or of a page or a page table of one of these spaces. */
  ghost predicate IsFrameOf(t: State, pages: set<int>, spaces: set<Frame>, f: Frame) {
    || (exists vp :: vp in pages && Present(KEntry(t.mem, vp)) && FrameOf(KEntry(t.mem, vp)) == f)
    || (exists d, vp :: d in spaces && 0 <= vp < KERNEL_BASE && Present(UEntry(t.mem, d, vp))
          && FrameOf(UEntry(t.mem, d, vp)) == f)
    || (exists d, di :: d in spaces && 0 <= di < KERNEL_DI && Present(t.mem[d][di]) && FrameOf(t.mem[d][di]) == f)
  }

  /** The pools have exactly the frames of these heap pages and spaces more. */
  ghost predicate PoolsGained(s: State, t: State, pages: set<int>, spaces: set<Frame>) {
    && |t.kernelPool| == |s.kernelPool| && |t.userPool| == |s.userPool|
    && (forall f: Frame :: PoolBit(t, f) <==> PoolBit(s, f) || IsFrameOf(t, pages, spaces, f))
    && (forall f: Frame :: PoolBit(s, f) ==> !IsFrameOf(t, pages, spaces, f))
  }

  /** What follows for the bits of the pools. */
  lemma PoolsFollow(s: State, t: State, pages: set<int>, spaces: set<Frame>)
    requires Gained(s, t, pages, spaces) && spaces !! s.userBits.Keys && spaces <= t.userBits.Keys
    requires Settled(s) && Settled(t) && Inv(s) && Inv(t)
    ensures PoolsGained(s, t, pages, spaces)
  {
    OwnersAreBits(s);
    OwnersAreBits(t);
    hide Inv, Settled, PoolBit, KEntry, UEntry, Present, FrameOf, IsFrameOf, HeapGained;
    forall f: Frame
      ensures PoolBit(t, f) <==> PoolBit(s, f) || IsFrameOf(t, pages, spaces, f)
      ensures PoolBit(s, f) ==> !IsFrameOf(t, pages, spaces, f)
    {
      if f in t.own && f !in s.own {
        GainedIsFrame(t, pages, spaces, f);
      }
      if IsFrameOf(t, pages, spaces, f) {
        FrameIsGained(s, t, pages, spaces, f);
      }
    }
  }

  lemma OwnersAreBits(s: State)
    requires Inv(s)
    ensures forall f: Frame :: f in s.own <==> PoolBit(s, f)
  {
    hide KernelOk, UserOk, DirsOk, TablesOk, PendingOk, RightsOk, PoolBit;
  }

  lemma GainedIsFrame(t: State, pages: set<int>, spaces: set<Frame>, f: Frame)
    requires f in t.own && IsGained(t.own[f], pages, spaces)
    requires Inv(t)
    ensures IsFrameOf(t, pages, spaces, f)
  {
    hide KernelOk, UserOk, DirsOk, TablesOk, PendingOk, RightsOk, KEntry, UEntry, Present, FrameOf;
    assert RoleOk(t, f);
  }

  lemma GainedInHeap(s: State, t: State, pages: set<int>)
    requires HeapGained(s, t, pages)
    ensures forall vp :: vp in pages ==> InHeap(s, vp) && InHeap(t, vp) && !s.kernelBits[vp - KERNEL_HEAP]
  {
  }

  /** Such a frame is in use for one of these pages and spaces. */
  lemma FrameHasRole(t: State, pages: set<int>, spaces: set<Frame>, f: Frame)
    requires IsFrameOf(t, pages, spaces, f) && spaces <= t.userBits.Keys && forall vp :: vp in pages ==> InHeap(t, vp)
    requires Inv(t)
    ensures f in t.own && IsGained(t.own[f], pages, spaces)
  {
    hide DirsOk, OwnOk, PendingOk, RightsOk, KEntry, UEntry, Present, FrameOf;
  }

  /** It was not in use before. */
  lemma FrameIsGained(s: State, t: State, pages: set<int>, spaces: set<Frame>, f: Frame)
    requires Gained(s, t, pages, spaces) && spaces !! s.userBits.Keys && spaces <= t.userBits.Keys
    requires IsFrameOf(t, pages, spaces, f)
    requires Settled(s) && Inv(s) && Inv(t)
    ensures f in t.own && f !in s.own
  {
    RolesAreRight(s);
    hide Inv, IsFrameOf, Settled, HeapGained;
    GainedInHeap(s, t, pages);
    FrameHasRole(t, pages, spaces, f);
    if f in s.own {
      assert false;
    }
  }

  /** What was taken: the heap has exactly these pages more, and the pools exactly the frames of these
      pages and of the pages and tables of these spaces. */
  ghost predicate Takes(s: State, t: State, pages: set<int>, spaces: set<Frame>) {
    HeapGained(s, t, pages) && PoolsGained(s, t, pages, spaces)
  }

  lemma GainedTakes(s: State, t: State, pages: set<int>, spaces: set<Frame>)
    requires Gained(s, t, pages, spaces) && spaces !! s.userBits.Keys && spaces <= t.userBits.Keys
    requires Settled(s) && Settled(t) && Inv(s) && Inv(t)
    ensures Takes(s, t, pages, spaces)
  {
    hide Inv, Settled, HeapGained, RolesGained, PoolsGained;
    PoolsFollow(s, t, pages, spaces);
  }
}
