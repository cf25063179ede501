/** The state of page allocation (v1-src/kernel/memory.c:145-222, v1-src/kernel/memory.c:344-453)
    as one value, the invariant that ties its layers together, and the effect of each elementary
    change on that invariant. The class in AddressSpaces.dfy performs the changes. */
module Vm {
  import opened Common
  import opened Paging
  import Bitmaps

  /** What a frame taken from a pool is used for. A reserved frame has been taken but is not yet
      mapped; user frames belong to the address space named by its directory's frame. */
  datatype Role =
    | Reserved
    | KernelPage(vp: int)
    | UserPage(dir: Frame, vp: int)
    | UserTable(dir: Frame, di: Index)

  /** Physical memory, the virtual bitmap of the kernel heap, one virtual bitmap for each user
      directory, the bitmaps of the two pools, and two ghosts: the role of every frame taken, and
      the pages whose bit is set although they are not mapped yet. */
  datatype State = State(
    mem: Memory,
    kernelBits: seq<bool>,
    userBits: map<Frame, seq<bool>>,
    kernelPool: seq<bool>,
    userPool: seq<bool>,
    userStart: int,
    own: map<Frame, Role>,
    pending: set<(Frame, int)>)

  // The page directory and the page tables set up by v1-src/boot/loader.s:100-138.
  const BOOT_DIR: Frame := 0x100
  const KERNEL_HEAP := 0xc0100
  const KERNEL_BASE := 0xc0000
  const KERNEL_DI := 768
  const SELF := 1023
  const USER_START := 0x8048
  const USER_PAGES := KERNEL_BASE - USER_START
  // The first frame after the megabyte of low memory and the 256 boot frames.
  const POOL_START := 0x200

  function BootTable(di: Index): Frame
    requires KERNEL_DI <= di < SELF
  {
    0x101 + (di - KERNEL_DI)
  }

  predicate IsKernelVp(vp: int) { KERNEL_BASE <= vp < SELF * ENTRIES }

  predicate IsUserVp(vp: int) { USER_START <= vp < KERNEL_BASE }

  /** The entry of a kernel page: it is in one of the tables laid down at boot. */
  function KEntry(mem: Memory, vp: int): Word {
    if IsKernelVp(vp) then mem[BootTable(vp / ENTRIES)][vp % ENTRIES] else 0
  }

  /** The entry of a page of user space. */
  function UEntry(mem: Memory, dir: Frame, vp: int): Word {
    if 0 <= vp < KERNEL_BASE then Entry(mem, dir, vp) else 0
  }

  predicate PoolBit(s: State, f: Frame) {
    || (POOL_START <= f < POOL_START + |s.kernelPool| && s.kernelPool[f - POOL_START])
    || (0 <= f - s.userStart < |s.userPool| && s.userPool[f - s.userStart])
  }

  predicate InHeap(s: State, vp: int) { KERNEL_HEAP <= vp < KERNEL_HEAP + |s.kernelBits| }

  ghost predicate Sizes(s: State) {
    && KERNEL_HEAP + |s.kernelBits| <= SELF * ENTRIES
    && POOL_START + |s.kernelPool| <= s.userStart
    && s.userStart + |s.userPool| <= FRAMES
    && (forall d :: d in s.userBits ==> |s.userBits[d]| == USER_PAGES)
  }

  /** A directory holds the boot tables in entries 768..1022 and itself in entry 1023. */
  ghost predicate KernelHalf(mem: Memory, dir: Frame) {
    && (forall di: Index :: KERNEL_DI <= di < SELF ==> mem[dir][di] == EntryFor(BootTable(di)))
    && mem[dir][SELF] == EntryFor(dir)
  }

  ghost predicate DirsOk(s: State) {
    && KernelHalf(s.mem, BOOT_DIR)
    && (forall d :: d in s.userBits ==> d in s.own && s.own[d].KernelPage? && KernelHalf(s.mem, d))
  }

  /** A heap bit is set exactly when the page is mapped (or about to be), to a frame of its own. */
  ghost predicate KernelOk(s: State)
    requires Sizes(s)
  {
    forall vp :: InHeap(s, vp) ==>
      var e := KEntry(s.mem, vp);
      && (Present(e) <==> s.kernelBits[vp - KERNEL_HEAP] && (BOOT_DIR, vp) !in s.pending)
      && (Present(e) ==> FrameOf(e) in s.own && s.own[FrameOf(e)] == KernelPage(vp))
  }

  ghost predicate TablesOk(s: State) {
    forall d, di :: d in s.userBits && 0 <= di < KERNEL_DI && Present(s.mem[d][di]) ==>
      var t := FrameOf(s.mem[d][di]); t in s.own && s.own[t] == UserTable(d, di)
  }

  ghost predicate UserOk(s: State)
    requires Sizes(s)
  {
    forall d, vp :: d in s.userBits && 0 <= vp < KERNEL_BASE ==>
      var e := UEntry(s.mem, d, vp);
      && (Present(e) <==> IsUserVp(vp) && s.userBits[d][vp - USER_START] && (d, vp) !in s.pending)
      && (Present(e) ==> FrameOf(e) in s.own && s.own[FrameOf(e)] == UserPage(d, vp))
  }

  predicate InKernelPool(s: State, f: Frame) { POOL_START <= f < POOL_START + |s.kernelPool| }

  predicate InUserPool(s: State, f: Frame) { s.userStart <= f < s.userStart + |s.userPool| }

  /** The role of a frame is what the tables say of it. */
  ghost predicate RoleOk(s: State, f: Frame)
    requires f in s.own
  {
    match s.own[f]
    case Reserved => true
    case KernelPage(vp) =>
      && InKernelPool(s, f) && IsKernelVp(vp) && InHeap(s, vp)
      && Present(KEntry(s.mem, vp)) && FrameOf(KEntry(s.mem, vp)) == f
    case UserPage(d, vp) =>
      && InUserPool(s, f) && d in s.userBits && 0 <= vp < KERNEL_BASE
      && Present(UEntry(s.mem, d, vp)) && FrameOf(UEntry(s.mem, d, vp)) == f
    case UserTable(d, di) =>
      && InKernelPool(s, f) && d in s.userBits && di < KERNEL_DI
      && Present(s.mem[d][di]) && FrameOf(s.mem[d][di]) == f
  }

  /** The set bits of the two pools are exactly the frames with a role. */
  ghost predicate OwnOk(s: State) {
    && (forall f: Frame :: f in s.own <==> PoolBit(s, f))
    && (forall f :: f in s.own ==> RoleOk(s, f))
  }

  ghost predicate PendingOk(s: State)
    requires Sizes(s)
  {
    forall d, vp :: (d, vp) in s.pending ==>
      || (d == BOOT_DIR && InHeap(s, vp) && s.kernelBits[vp - KERNEL_HEAP])
      || (d in s.userBits && IsUserVp(vp) && s.userBits[d][vp - USER_START])
  }

  /** Whatever is mapped admits stores of user programs: page tables, heap pages and user pages. */
  ghost predicate RightsOk(s: State) {
    && (forall d, di :: d in s.userBits && 0 <= di < KERNEL_DI && Present(s.mem[d][di]) ==> Admits(s.mem[d][di]))
    && (forall vp :: InHeap(s, vp) && Present(KEntry(s.mem, vp)) ==> Admits(KEntry(s.mem, vp)))
    && (forall d, vp :: d in s.userBits && 0 <= vp < KERNEL_BASE && Present(UEntry(s.mem, d, vp)) ==>
          Admits(UEntry(s.mem, d, vp)))
  }

  ghost predicate Inv(s: State) {
    Sizes(s) && DirsOk(s) && KernelOk(s) && TablesOk(s) && UserOk(s) && OwnOk(s) && PendingOk(s) && RightsOk(s)
  }

  /** Between operations nothing is half done. */
  ghost predicate Settled(s: State) {
    s.pending == {} && forall f :: f in s.own ==> s.own[f] != Reserved
  }

  /** A frame whose contents are data: not a directory, not a page table. */
  predicate IsData(s: State, f: Frame) {
    f in s.own && f !in s.userBits && (s.own[f].KernelPage? || s.own[f].UserPage?)
  }

  // ---------- what the invariant means ----------

  /** Kernel-half coherence: every directory translates every kernel address outside the
      self-map window in the same way, through the tables of the boot directory. */
  lemma KernelHalfShared(s: State, d: Frame, vaddr: Word)
    requires Inv(s) && (d in s.userBits || d == BOOT_DIR)
    requires IsKernelVp(vaddr / PAGE_SIZE)
    ensures Entry(s.mem, d, vaddr / PAGE_SIZE) == KEntry(s.mem, vaddr / PAGE_SIZE)
    ensures Walk(s.mem, d, vaddr) == Walk(s.mem, BOOT_DIR, vaddr)
  {
    hide KernelOk, UserOk, OwnOk, TablesOk, PendingOk, RightsOk;
    var vp := vaddr / PAGE_SIZE;
    assert KERNEL_DI <= vp / ENTRIES < SELF;
    WalkIsEntry(s.mem, d, vaddr);
    WalkIsEntry(s.mem, BOOT_DIR, vaddr);
  }

  /** A store of a user program to its space goes wherever any access goes: it faults exactly on pages
      that are not mapped. */
  lemma UserStores(s: State, d: Frame, vaddr: Word)
    requires d in s.userBits && vaddr / PAGE_SIZE < KERNEL_BASE
    requires Inv(s)
    ensures UserStoreWalk(s.mem, d, vaddr) == Walk(s.mem, d, vaddr)
  {
    hide DirsOk, KernelOk, TablesOk, UserOk, OwnOk, PendingOk, KEntry, Admits, Present, FrameOf, UserStoreWalk, Walk;
    assert UEntry(s.mem, d, vaddr / PAGE_SIZE) == Entry(s.mem, d, vaddr / PAGE_SIZE);
    assert vaddr / PAGE_SIZE / ENTRIES == PdeIdx(vaddr);
    AdmittedStores(s.mem, d, vaddr);
  }

  /** A place a page can be mapped at: a heap page, or a page of one user space. */
  predicate IsSite(s: State, d: Frame, vp: int) {
    (d == BOOT_DIR && InHeap(s, vp)) || (d in s.userBits && 0 <= vp < KERNEL_BASE)
  }

  function At(mem: Memory, d: Frame, vp: int): Word {
    if vp < KERNEL_BASE then UEntry(mem, d, vp) else KEntry(mem, vp)
  }

  predicate BitAt(s: State, d: Frame, vp: int)
    requires IsSite(s, d, vp)
    requires d in s.userBits && vp < KERNEL_BASE ==> |s.userBits[d]| == USER_PAGES
  {
    if vp < KERNEL_BASE then USER_START <= vp && s.userBits[d][vp - USER_START] else s.kernelBits[vp - KERNEL_HEAP]
  }

  /** In every settled state a bit is set exactly when the page is present. */
  lemma BitsMatchEntries(s: State, d: Frame, vp: int)
    requires Settled(s) && IsSite(s, d, vp)
    requires Inv(s)
    ensures BitAt(s, d, vp) <==> Present(At(s.mem, d, vp))
  {
  }

  /** Two present entries name different frames. */
  lemma FramesNotShared(s: State, d: Frame, vp: int, d': Frame, vp': int)
    requires IsSite(s, d, vp) && IsSite(s, d', vp') && (d, vp) != (d', vp')
    requires Present(At(s.mem, d, vp)) && Present(At(s.mem, d', vp'))
    requires Inv(s)
    ensures FrameOf(At(s.mem, d, vp)) != FrameOf(At(s.mem, d', vp'))
  {
  }

  /** The frame of a mapped page, or of a page table of a user directory. */
  ghost predicate InUse(s: State, f: Frame) {
    || (exists d, vp :: IsSite(s, d, vp) && Present(At(s.mem, d, vp)) && FrameOf(At(s.mem, d, vp)) == f)
    || (exists d, di :: d in s.userBits && 0 <= di < KERNEL_DI && Present(s.mem[d][di]) && FrameOf(s.mem[d][di]) == f)
  }

  /** In every settled state the set bits of the two pools are exactly the frames in use. */
  lemma PoolsAreFramesInUse(s: State, f: Frame)
    requires Settled(s)
    requires Inv(s)
    ensures PoolBit(s, f) <==> InUse(s, f)
  {
    if PoolBit(s, f) {
      assert RoleOk(s, f);
      match s.own[f]
      case KernelPage(vp) => assert IsSite(s, BOOT_DIR, vp) && FrameOf(At(s.mem, BOOT_DIR, vp)) == f;
      case UserPage(d, vp) => assert IsSite(s, d, vp) && FrameOf(At(s.mem, d, vp)) == f;
      case UserTable(d, di) => assert FrameOf(s.mem[d][di]) == f;
    }
  }

  // ---------- elementary changes ----------

  /** The bitmap with bit `i` written, if it has one. */
  function PoolWith(pool: seq<bool>, i: int, value: bool): seq<bool> {
    if 0 <= i < |pool| then pool[i := value] else pool
  }

  /** `palloc`: the frame's bit is set; it has no use yet. */
  function Take(s: State, f: Frame): State {
    s.(kernelPool := PoolWith(s.kernelPool, f - POOL_START, true),
       userPool := PoolWith(s.userPool, f - s.userStart, true),
       own := s.own[f := Reserved])
  }

  lemma TakeKeepsInv(s: State, f: Frame)
    requires Inv(s) && (InKernelPool(s, f) || InUserPool(s, f)) && f !in s.own
    ensures Inv(Take(s, f))
  {
    hide KEntry, UEntry, Present, FrameOf, IsKernelVp, IsUserVp;
    var t := Take(s, f);
    assert OwnOk(t) by { TakeKeepsOwn(s, f); }
    hide OwnOk, RightsOk;
  }

  lemma TakeKeepsOwn(s: State, f: Frame)
    requires Sizes(s) && OwnOk(s) && (InKernelPool(s, f) || InUserPool(s, f)) && f !in s.own
    ensures OwnOk(Take(s, f))
  {
    hide KEntry, UEntry, Present, FrameOf, IsKernelVp;
    var t := Take(s, f);
    forall g | g in t.own ensures RoleOk(t, g) {
      assert g != f ==> RoleOk(s, g);
    }
  }

  /** The frame of the table that holds the entry of a page. */
  function TableOf(mem: Memory, d: Frame, vp: int): Frame {
    if 0 <= vp < KERNEL_BASE then FrameOf(mem[d][vp / ENTRIES])
    else if IsKernelVp(vp) then BootTable(vp / ENTRIES)
    else 0
  }

  function RoleAt(d: Frame, vp: int): Role {
    if vp < KERNEL_BASE then UserPage(d, vp) else KernelPage(vp)
  }

  /** `*pte = f | 7` for a reserved frame. */
  function Map(s: State, d: Frame, vp: int, f: Frame): State {
    s.(mem := WithEntry(s.mem, TableOf(s.mem, d, vp), vp % ENTRIES, EntryFor(f)),
       own := s.own[f := RoleAt(d, vp)],
       pending := s.pending - {(d, vp)})
  }

  predicate IsReady(s: State, d: Frame, vp: int) {
    IsSite(s, d, vp) && if vp < KERNEL_BASE then Present(s.mem[d][vp / ENTRIES]) else IsKernelVp(vp)
  }

  /** `mem` differs from `s.mem` in the entry of one page only, which is now `w`. */
  ghost predicate OnlyEntry(s: State, mem: Memory, d: Frame, vp: int, w: Word) {
    && (forall k :: IsKernelVp(k) ==> KEntry(mem, k) == if k == vp then w else KEntry(s.mem, k))
    && (forall e, u :: e in s.userBits && 0 <= u < KERNEL_BASE ==>
          UEntry(mem, e, u) == if e == d && u == vp then w else UEntry(s.mem, e, u))
    && (forall e :: e in s.userBits || e == BOOT_DIR ==> mem[e] == s.mem[e])
  }

  /** Tables are neither directories nor, for user tables, tables of another directory. */
  lemma TablesApart(s: State, d: Frame, vp: int)
    requires IsReady(s, d, vp)
    requires Inv(s)
    ensures TableOf(s.mem, d, vp) !in s.userBits && TableOf(s.mem, d, vp) != BOOT_DIR
    ensures vp < KERNEL_BASE ==> TableOf(s.mem, d, vp) >= POOL_START
    ensures vp >= KERNEL_BASE ==> TableOf(s.mem, d, vp) !in s.own
  {
    hide KernelOk, UserOk, PendingOk, KernelHalf, KEntry, UEntry, RightsOk;
    assert forall e :: e in s.own ==> RoleOk(s, e);
  }

  lemma WriteEntryUser(s: State, d: Frame, vp: int, w: Word, mem: Memory)
    requires IsReady(s, d, vp)
    requires mem == WithEntry(s.mem, TableOf(s.mem, d, vp), vp % ENTRIES, w)
    requires Inv(s)
    ensures forall e, u :: e in s.userBits && 0 <= u < KERNEL_BASE ==>
              UEntry(mem, e, u) == if e == d && u == vp then w else UEntry(s.mem, e, u)
  {
    var table := TableOf(s.mem, d, vp);
    TablesApart(s, d, vp);
    hide KernelOk, UserOk, PendingOk, KernelHalf, OwnOk, KEntry, RightsOk;
    forall e, u | e in s.userBits && 0 <= u < KERNEL_BASE
      ensures UEntry(mem, e, u) == if e == d && u == vp then w else UEntry(s.mem, e, u)
    {
      if Present(s.mem[e][u / ENTRIES]) && FrameOf(s.mem[e][u / ENTRIES]) == table {
        assert s.own[table] == UserTable(e, u / ENTRIES);
      }
    }
  }

  lemma WriteEntry(s: State, d: Frame, vp: int, w: Word)
    requires IsReady(s, d, vp)
    requires Inv(s)
    ensures OnlyEntry(s, WithEntry(s.mem, TableOf(s.mem, d, vp), vp % ENTRIES, w), d, vp, w)
  {
    var mem := WithEntry(s.mem, TableOf(s.mem, d, vp), vp % ENTRIES, w);
    hide Inv, UEntry, KEntry, Present, FrameOf, TableOf, IsReady;
    WriteEntryUser(s, d, vp, w, mem);
    TablesApart(s, d, vp);
    WriteEntryKernel(s, d, vp, w);
  }

  lemma WriteEntryKernel(s: State, d: Frame, vp: int, w: Word)
    requires IsReady(s, d, vp) && (vp < KERNEL_BASE ==> TableOf(s.mem, d, vp) >= POOL_START)
    ensures var mem := WithEntry(s.mem, TableOf(s.mem, d, vp), vp % ENTRIES, w);
            forall k :: IsKernelVp(k) ==> KEntry(mem, k) == if k == vp then w else KEntry(s.mem, k)
  {
    hide Present, UEntry;
    var mem := WithEntry(s.mem, TableOf(s.mem, d, vp), vp % ENTRIES, w);
    forall k | IsKernelVp(k) ensures KEntry(mem, k) == if k == vp then w else KEntry(s.mem, k) {
      assert BootTable(k / ENTRIES) < POOL_START;
    }
  }

  lemma MapKeepsEntries(s: State, d: Frame, vp: int, f: Frame)
    requires IsReady(s, d, vp) && (d, vp) in s.pending && f in s.own && s.own[f] == Reserved
    requires OnlyEntry(s, Map(s, d, vp, f).mem, d, vp, EntryFor(f))
    requires Inv(s)
    ensures KernelOk(Map(s, d, vp, f)) && UserOk(Map(s, d, vp, f))
  {
    hide KEntry, UEntry, Present, FrameOf, WithEntry, TableOf, OwnOk, TablesOk, DirsOk, RightsOk;
  }

  lemma MapKeepsOwn(s: State, d: Frame, vp: int, f: Frame)
    requires IsReady(s, d, vp) && !Present(At(s.mem, d, vp)) && f in s.own && s.own[f] == Reserved
    requires if vp < KERNEL_BASE then InUserPool(s, f) else InKernelPool(s, f)
    requires OnlyEntry(s, Map(s, d, vp, f).mem, d, vp, EntryFor(f))
    requires Inv(s)
    ensures OwnOk(Map(s, d, vp, f))
  {
    hide KEntry, UEntry, Present, FrameOf, WithEntry, TableOf, KernelOk, UserOk, DirsOk, TablesOk, RightsOk;
    var t := Map(s, d, vp, f);
    forall g | g in t.own ensures RoleOk(t, g) {
      assert g != f ==> RoleOk(s, g);
    }
  }

  lemma MapKeepsRest(s: State, d: Frame, vp: int, f: Frame)
    requires IsReady(s, d, vp) && f in s.own && s.own[f] == Reserved
    requires OnlyEntry(s, Map(s, d, vp, f).mem, d, vp, EntryFor(f))
    requires Inv(s)
    ensures var t := Map(s, d, vp, f); Sizes(t) && DirsOk(t) && TablesOk(t) && PendingOk(t)
  {
    var t := Map(s, d, vp, f);
    hide KEntry, UEntry, Present, FrameOf, WithEntry, TableOf, KernelOk, UserOk, OwnOk, EntryFor, KernelHalf, RightsOk;
    assert KernelHalf(t.mem, BOOT_DIR) && forall e :: e in s.userBits ==> KernelHalf(t.mem, e) by {
      SameDirsSameHalf(s, t.mem);
    }
  }

  lemma SameDirsSameHalf(s: State, mem: Memory)
    requires DirsOk(s) && forall e :: e in s.userBits || e == BOOT_DIR ==> mem[e] == s.mem[e]
    ensures KernelHalf(mem, BOOT_DIR) && forall e :: e in s.userBits ==> KernelHalf(mem, e)
  {
  }

  lemma MapKeepsInv(s: State, d: Frame, vp: int, f: Frame)
    requires IsReady(s, d, vp) && (d, vp) in s.pending
    requires f in s.own && s.own[f] == Reserved
    requires if vp < KERNEL_BASE then InUserPool(s, f) else InKernelPool(s, f)
    requires Inv(s)
    ensures Inv(Map(s, d, vp, f))
    ensures OnlyEntry(s, Map(s, d, vp, f).mem, d, vp, EntryFor(f))
  {
    assert !Present(At(s.mem, d, vp)) by { hide OwnOk, DirsOk, TablesOk, RightsOk; }
    hide Sizes, DirsOk, KernelOk, TablesOk, UserOk, OwnOk, PendingOk, OnlyEntry, RightsOk;
    WriteEntry(s, d, vp, EntryFor(f));
    MapKeepsEntries(s, d, vp, f);
    MapKeepsOwn(s, d, vp, f);
    MapKeepsRest(s, d, vp, f);
    SizesBound(s);
    OnlyEntryKeepsRights(s, Map(s, d, vp, f), d, vp, EntryFor(f));
  }

  /** Another entry for one page keeps the rights, if it admits user stores or is not present. */
  lemma OnlyEntryKeepsRights(s: State, t: State, d: Frame, vp: int, w: Word)
    requires RightsOk(s) && OnlyEntry(s, t.mem, d, vp, w) && (Present(w) ==> Admits(w))
    requires t.userBits == s.userBits && |t.kernelBits| == |s.kernelBits|
    requires KERNEL_HEAP + |s.kernelBits| <= SELF * ENTRIES
    ensures RightsOk(t)
  {
    hide KEntry, UEntry, Present, Admits;
  }

  /** `mem` has the entries of `s.mem` for every page. */
  ghost predicate SameEntries(s: State, mem: Memory) {
    && (forall k :: IsKernelVp(k) ==> KEntry(mem, k) == KEntry(s.mem, k))
    && (forall e, u :: e in s.userBits && 0 <= u < KERNEL_BASE ==> UEntry(mem, e, u) == UEntry(s.mem, e, u))
  }

  /** A directory entry is filled with a reserved frame, and the new table is cleared. */
  function AddTable(s: State, d: Frame, di: Index, f: Frame): State {
    s.(mem := WithEntry(s.mem, d, di, EntryFor(f))[f := ZeroPage()], own := s.own[f := UserTable(d, di)])
  }

  predicate CanAddTable(s: State, d: Frame, di: Index, f: Frame) {
    && d in s.userBits && di < KERNEL_DI && !Present(s.mem[d][di])
    && f in s.own && s.own[f] == Reserved && InKernelPool(s, f)
  }

  lemma AddTableSameEntries(s: State, d: Frame, di: Index, f: Frame)
    requires CanAddTable(s, d, di, f)
    requires Inv(s)
    ensures SameEntries(s, AddTable(s, d, di, f).mem)
    ensures forall e :: (e in s.userBits || e == BOOT_DIR) && e != d ==> AddTable(s, d, di, f).mem[e] == s.mem[e]
    ensures AddTable(s, d, di, f).mem[d] == s.mem[d][di := EntryFor(f)]
  {
    var mem := AddTable(s, d, di, f).mem;
    hide KernelOk, UserOk, PendingOk, KernelHalf, RightsOk;
    assert f !in s.userBits && f >= POOL_START;
    assert d >= POOL_START by { assert RoleOk(s, d); }
    forall k | IsKernelVp(k) ensures KEntry(mem, k) == KEntry(s.mem, k) {
      assert BootTable(k / ENTRIES) != f && BootTable(k / ENTRIES) != d;
    }
    forall e, u | e in s.userBits && 0 <= u < KERNEL_BASE ensures UEntry(mem, e, u) == UEntry(s.mem, e, u) {
      if Present(s.mem[e][u / ENTRIES]) {
        assert s.own[FrameOf(s.mem[e][u / ENTRIES])] == UserTable(e, u / ENTRIES);
      }
    }
  }

  lemma AddTableKeepsOwn(s: State, d: Frame, di: Index, f: Frame)
    requires CanAddTable(s, d, di, f) && SameEntries(s, AddTable(s, d, di, f).mem)
    requires forall e :: (e in s.userBits || e == BOOT_DIR) && e != d ==> AddTable(s, d, di, f).mem[e] == s.mem[e]
    requires AddTable(s, d, di, f).mem[d] == s.mem[d][di := EntryFor(f)]
    requires Inv(s)
    ensures OwnOk(AddTable(s, d, di, f))
  {
    hide KEntry, UEntry, Present, FrameOf, WithEntry, EntryFor, KernelOk, UserOk, DirsOk, PendingOk, RightsOk;
    var t := AddTable(s, d, di, f);
    forall g | g in t.own ensures RoleOk(t, g) {
      assert g != f ==> RoleOk(s, g);
    }
  }

  lemma AddTableKeepsInv(s: State, d: Frame, di: Index, f: Frame)
    requires CanAddTable(s, d, di, f)
    requires Inv(s)
    ensures Inv(AddTable(s, d, di, f))
    ensures SameEntries(s, AddTable(s, d, di, f).mem)
  {
    var t := AddTable(s, d, di, f);
    assert SameEntries(s, t.mem) && OwnOk(t)
      && (forall e :: (e in s.userBits || e == BOOT_DIR) && e != d ==> t.mem[e] == s.mem[e])
      && t.mem[d] == s.mem[d][di := EntryFor(f)]
    by {
      hide *;
      AddTableSameEntries(s, d, di, f);
      AddTableKeepsOwn(s, d, di, f);
    }
    hide KEntry, UEntry, Present, FrameOf, WithEntry, EntryFor, OwnOk, DirsOk, TablesOk, AddTable, RightsOk;
    AddTableDirs(s, d, di, f);
    AddTableTables(s, d, di, f);
    AddTableRest(s, d, di, f);
    AddTableRights(s, d, di, f);
  }

  lemma AddTableRights(s: State, d: Frame, di: Index, f: Frame)
    requires CanAddTable(s, d, di, f) && AddTable(s, d, di, f).mem[d] == s.mem[d][di := EntryFor(f)]
    requires forall e :: (e in s.userBits || e == BOOT_DIR) && e != d ==> AddTable(s, d, di, f).mem[e] == s.mem[e]
    requires SameEntries(s, AddTable(s, d, di, f).mem) && RightsOk(s)
    requires KERNEL_HEAP + |s.kernelBits| <= SELF * ENTRIES
    ensures RightsOk(AddTable(s, d, di, f))
  {
    hide KEntry, UEntry, Present, Admits, WithEntry;
  }

  lemma AddTableDirs(s: State, d: Frame, di: Index, f: Frame)
    requires CanAddTable(s, d, di, f) && AddTable(s, d, di, f).mem[d] == s.mem[d][di := EntryFor(f)]
    requires forall e :: (e in s.userBits || e == BOOT_DIR) && e != d ==> AddTable(s, d, di, f).mem[e] == s.mem[e]
    requires Inv(s)
    ensures DirsOk(AddTable(s, d, di, f))
  {
    hide KernelOk, UserOk, TablesOk, OwnOk, KEntry, UEntry, Present, FrameOf, WithEntry, EntryFor, RightsOk;
  }

  lemma AddTableTables(s: State, d: Frame, di: Index, f: Frame)
    requires CanAddTable(s, d, di, f) && AddTable(s, d, di, f).mem[d] == s.mem[d][di := EntryFor(f)]
    requires forall e :: (e in s.userBits || e == BOOT_DIR) && e != d ==> AddTable(s, d, di, f).mem[e] == s.mem[e]
    requires Inv(s)
    ensures TablesOk(AddTable(s, d, di, f))
  {
    hide KernelOk, UserOk, OwnOk, KEntry, UEntry, Present, FrameOf, WithEntry, EntryFor, RightsOk;
  }

  lemma AddTableRest(s: State, d: Frame, di: Index, f: Frame)
    requires CanAddTable(s, d, di, f) && SameEntries(s, AddTable(s, d, di, f).mem)
    requires Inv(s)
    ensures var t := AddTable(s, d, di, f); Sizes(t) && KernelOk(t) && UserOk(t) && PendingOk(t)
  {
    hide DirsOk, TablesOk, OwnOk, KEntry, UEntry, Present, FrameOf, WithEntry, EntryFor, RightsOk;
  }

  /** `pfree` of the page's frame and `*pte &= ~PG_P_1`; the bit of the page is still set. */
  function Unmap(s: State, d: Frame, vp: int): State {
    s.(mem := WithEntry(s.mem, TableOf(s.mem, d, vp), vp % ENTRIES, WithoutPresent(At(s.mem, d, vp))),
       kernelPool := PoolWith(s.kernelPool, FrameOf(At(s.mem, d, vp)) - POOL_START, false),
       userPool := PoolWith(s.userPool, FrameOf(At(s.mem, d, vp)) - s.userStart, false),
       own := s.own - {FrameOf(At(s.mem, d, vp))},
       pending := s.pending + {(d, vp)})
  }

  predicate CanUnmap(s: State, d: Frame, vp: int) {
    && IsReady(s, d, vp) && Present(At(s.mem, d, vp))
    && var f := FrameOf(At(s.mem, d, vp)); f !in s.userBits && (InKernelPool(s, f) || InUserPool(s, f))
  }

  lemma UnmapKeepsEntries(s: State, d: Frame, vp: int)
    requires CanUnmap(s, d, vp)
    requires OnlyEntry(s, Unmap(s, d, vp).mem, d, vp, WithoutPresent(At(s.mem, d, vp)))
    requires Inv(s)
    ensures KernelOk(Unmap(s, d, vp)) && UserOk(Unmap(s, d, vp))
  {
    hide KEntry, UEntry, Present, FrameOf, WithEntry, TableOf, OwnOk, TablesOk, DirsOk, WithoutPresent, RightsOk;
  }

  lemma UnmapKeepsOwn(s: State, d: Frame, vp: int)
    requires CanUnmap(s, d, vp)
    requires OnlyEntry(s, Unmap(s, d, vp).mem, d, vp, WithoutPresent(At(s.mem, d, vp)))
    requires Inv(s)
    ensures OwnOk(Unmap(s, d, vp))
  {
    hide KEntry, UEntry, Present, FrameOf, WithEntry, TableOf, DirsOk, TablesOk, WithoutPresent, RightsOk;
    var t, f := Unmap(s, d, vp), FrameOf(At(s.mem, d, vp));
    forall g | g in t.own ensures RoleOk(t, g) {
      assert RoleOk(s, g);
    }
    forall g: Frame ensures g in t.own <==> PoolBit(t, g) {
      assert g in s.own <==> PoolBit(s, g);
    }
  }

  lemma UnmapKeepsDirs(s: State, d: Frame, vp: int)
    requires CanUnmap(s, d, vp)
    requires OnlyEntry(s, Unmap(s, d, vp).mem, d, vp, WithoutPresent(At(s.mem, d, vp)))
    requires Inv(s)
    ensures Sizes(Unmap(s, d, vp)) && DirsOk(Unmap(s, d, vp))
  {
    hide KEntry, UEntry, Present, FrameOf, WithEntry, TableOf, OwnOk, TablesOk, WithoutPresent, KernelHalf, RightsOk;
    var t := Unmap(s, d, vp);
    assert KernelHalf(t.mem, BOOT_DIR) && forall e :: e in s.userBits ==> KernelHalf(t.mem, e) by {
      hide KernelOk, UserOk, RightsOk;
      SameDirsSameHalf(s, t.mem);
    }
  }

  lemma UnmapKeepsTables(s: State, d: Frame, vp: int)
    requires CanUnmap(s, d, vp)
    requires OnlyEntry(s, Unmap(s, d, vp).mem, d, vp, WithoutPresent(At(s.mem, d, vp)))
    requires Inv(s)
    ensures Sizes(Unmap(s, d, vp)) && TablesOk(Unmap(s, d, vp)) && PendingOk(Unmap(s, d, vp))
  {
    hide KEntry, UEntry, Present, FrameOf, WithEntry, TableOf, OwnOk, DirsOk, WithoutPresent, RightsOk;
    assert s.own[FrameOf(At(s.mem, d, vp))] == RoleAt(d, vp);
  }

  lemma UnmapKeepsInv(s: State, d: Frame, vp: int)
    requires CanUnmap(s, d, vp)
    requires Inv(s)
    ensures Inv(Unmap(s, d, vp))
    ensures OnlyEntry(s, Unmap(s, d, vp).mem, d, vp, WithoutPresent(At(s.mem, d, vp)))
  {
    hide Sizes, DirsOk, KernelOk, TablesOk, UserOk, OwnOk, PendingOk, OnlyEntry, RightsOk;
    assert IsReady(s, d, vp);
    WriteEntry(s, d, vp, WithoutPresent(At(s.mem, d, vp)));
    UnmapKeepsEntries(s, d, vp);
    UnmapKeepsOwn(s, d, vp);
    UnmapKeepsDirs(s, d, vp);
    UnmapKeepsTables(s, d, vp);
    SizesBound(s);
    OnlyEntryKeepsRights(s, Unmap(s, d, vp), d, vp, WithoutPresent(At(s.mem, d, vp)));
  }

  lemma SizesBound(s: State)
    requires Sizes(s)
    ensures KERNEL_HEAP + |s.kernelBits| <= SELF * ENTRIES
  {
  }

  /** Data written to a mapped page. */
  function WriteData(s: State, f: Frame, page: Page): State {
    s.(mem := s.mem[f := page])
  }

  lemma WriteDataSameEntries(s: State, f: Frame, page: Page)
    requires IsData(s, f)
    requires Inv(s)
    ensures SameEntries(s, WriteData(s, f, page).mem)
    ensures forall e :: e in s.userBits || e == BOOT_DIR ==> WriteData(s, f, page).mem[e] == s.mem[e]
  {
    hide KernelOk, UserOk, PendingOk, KernelHalf, RightsOk;
    var t := WriteData(s, f, page);
    assert f >= POOL_START by { assert RoleOk(s, f); }
    forall e, u | e in s.userBits && 0 <= u < KERNEL_BASE ensures UEntry(t.mem, e, u) == UEntry(s.mem, e, u) {
      if Present(s.mem[e][u / ENTRIES]) {
        assert s.own[FrameOf(s.mem[e][u / ENTRIES])] == UserTable(e, u / ENTRIES);
      }
    }
  }

  lemma WriteDataKeepsOwn(s: State, f: Frame, page: Page)
    requires IsData(s, f)
    requires SameEntries(s, WriteData(s, f, page).mem)
    requires forall e :: e in s.userBits || e == BOOT_DIR ==> WriteData(s, f, page).mem[e] == s.mem[e]
    requires Inv(s)
    ensures OwnOk(WriteData(s, f, page))
  {
    hide KEntry, UEntry, Present, FrameOf, KernelOk, UserOk, DirsOk, TablesOk, PendingOk, RightsOk;
    var t := WriteData(s, f, page);
    assert forall g :: g in t.own ==> RoleOk(s, g) && RoleOk(t, g);
  }

  lemma WriteDataKeepsInv(s: State, f: Frame, page: Page)
    requires IsData(s, f)
    requires Inv(s)
    ensures Inv(WriteData(s, f, page))
    ensures SameEntries(s, WriteData(s, f, page).mem)
    ensures forall e :: e in s.userBits || e == BOOT_DIR ==> WriteData(s, f, page).mem[e] == s.mem[e]
  {
    var t := WriteData(s, f, page);
    assert SameEntries(s, t.mem) && OwnOk(t)
        && (forall e :: e in s.userBits || e == BOOT_DIR ==> t.mem[e] == s.mem[e]) by {
      hide Inv, SameEntries, OwnOk, RightsOk;
      WriteDataSameEntries(s, f, page);
      WriteDataKeepsOwn(s, f, page);
    }
    hide KEntry, UEntry, Present, FrameOf, OwnOk, RightsOk;
    assert DirsOk(t) && TablesOk(t) by { hide KernelOk, UserOk, RightsOk; }
    hide DirsOk, TablesOk;
    DataKeepsRights(s, t);
  }

  lemma DataKeepsRights(s: State, t: State)
    requires RightsOk(s) && SameEntries(s, t.mem) && t.userBits == s.userBits && |t.kernelBits| == |s.kernelBits|
    requires forall e :: e in s.userBits ==> t.mem[e] == s.mem[e]
    requires KERNEL_HEAP + |s.kernelBits| <= SELF * ENTRIES
    ensures RightsOk(t)
  {
    hide KEntry, UEntry, Present, Admits;
  }

  function NoBits(): seq<bool> { seq(USER_PAGES, i => false) }

  predicate LowerHalfEmpty(mem: Memory, d: Frame) {
    forall di: Index :: 0 <= di < KERNEL_DI ==> !Present(mem[d][di])
  }

  // ---------- virtual bitmaps ----------

  /** The pages first .. first + cnt - 1 of one space. */
  function Range(d: Frame, first: int, cnt: nat): (r: set<(Frame, int)>)
    ensures forall e, vp :: (e, vp) in r <==> e == d && first <= vp < first + cnt
  {
    set vp | first <= vp < first + cnt :: (d, vp)
  }

  /** The virtual bitmap of a space, and the page its bit 0 stands for. */
  function BitsOf(s: State, d: Frame): seq<bool> {
    if d == BOOT_DIR then s.kernelBits else if d in s.userBits then s.userBits[d] else []
  }

  function FirstPage(d: Frame): int {
    if d == BOOT_DIR then KERNEL_HEAP else USER_START
  }

  predicate IsRange(s: State, d: Frame, first: int, cnt: nat) {
    && (d in s.userBits || d == BOOT_DIR)
    && FirstPage(d) <= first && first + cnt <= FirstPage(d) + |BitsOf(s, d)| <= FRAMES
  }

  function WithBits(s: State, d: Frame, bits: seq<bool>, pending: set<(Frame, int)>): State {
    if d == BOOT_DIR then s.(kernelBits := bits, pending := pending)
    else s.(userBits := s.userBits[d := bits], pending := pending)
  }

  /** `vaddr_get` sets the bits of a run of pages that are all free. */
  function Reserve(s: State, d: Frame, first: int, cnt: nat): State
    requires IsRange(s, d, first, cnt)
  {
    WithBits(s, d, SetRange(BitsOf(s, d), first - FirstPage(d), cnt, true), s.pending + Range(d, first, cnt))
  }

  /** `vaddr_remove` clears the bits of pages that are not mapped any more. */
  function Release(s: State, d: Frame, first: int, cnt: nat): State
    requires IsRange(s, d, first, cnt)
  {
    WithBits(s, d, SetRange(BitsOf(s, d), first - FirstPage(d), cnt, false), s.pending - Range(d, first, cnt))
  }

  /** Only virtual bits and the pending set change: frames, directories and tables stay right. */
  lemma BitsKeepFrames(s: State, t: State)
    requires Sizes(t)
    requires t == s.(kernelBits := t.kernelBits, userBits := t.userBits, pending := t.pending)
    requires |t.kernelBits| == |s.kernelBits| && t.userBits.Keys == s.userBits.Keys
    requires Inv(s)
    ensures DirsOk(t) && TablesOk(t) && OwnOk(t)
  {
    hide KEntry, UEntry, Present, FrameOf, KernelHalf, KernelOk, UserOk, PendingOk, RightsOk;
    assert forall e :: e in t.userBits <==> e in s.userBits;
    assert OwnOk(t) by {
      assert forall g :: g in t.own ==> RoleOk(s, g) && RoleOk(t, g);
    }
  }

  lemma BootIsNoUserDir(s: State)
    requires Inv(s)
    ensures BOOT_DIR !in s.userBits
  {
    hide KEntry, UEntry, Present, FrameOf, KernelHalf, KernelOk, UserOk, PendingOk, RightsOk;
  }

  lemma ReserveKeepsKernel(s: State, d: Frame, first: int, cnt: nat)
    requires IsRange(s, d, first, cnt)
    requires Bitmaps.Clear(BitsOf(s, d), first - FirstPage(d), cnt)
    requires Inv(s)
    ensures var t := Reserve(s, d, first, cnt); Sizes(t) && KernelOk(t) && PendingOk(t)
  {
    hide KEntry, UEntry, Present, FrameOf, UserOk, DirsOk, TablesOk, OwnOk, RightsOk;
  }

  lemma ReserveKeepsUser(s: State, d: Frame, first: int, cnt: nat)
    requires IsRange(s, d, first, cnt)
    requires Bitmaps.Clear(BitsOf(s, d), first - FirstPage(d), cnt)
    requires Inv(s)
    ensures var t := Reserve(s, d, first, cnt); Sizes(t) && UserOk(t)
  {
    assert BOOT_DIR !in s.userBits by { hide *; BootIsNoUserDir(s); }
    hide KEntry, UEntry, Present, FrameOf, KernelOk, DirsOk, TablesOk, OwnOk, PendingOk, RightsOk;
  }

  lemma ReserveKeepsInv(s: State, d: Frame, first: int, cnt: nat)
    requires IsRange(s, d, first, cnt)
    requires Bitmaps.Clear(BitsOf(s, d), first - FirstPage(d), cnt)
    requires Inv(s)
    ensures Inv(Reserve(s, d, first, cnt))
  {
    var t := Reserve(s, d, first, cnt);
    hide Sizes, DirsOk, KernelOk, TablesOk, UserOk, OwnOk, PendingOk, RightsOk;
    ReserveKeepsKernel(s, d, first, cnt);
    ReserveKeepsUser(s, d, first, cnt);
    BitsKeepFrames(s, t);
  }

  lemma ReleaseKeepsKernel(s: State, d: Frame, first: int, cnt: nat)
    requires IsRange(s, d, first, cnt)
    requires Range(d, first, cnt) <= s.pending
    requires Inv(s)
    ensures var t := Release(s, d, first, cnt); Sizes(t) && KernelOk(t) && PendingOk(t)
  {
    hide KEntry, UEntry, Present, FrameOf, UserOk, DirsOk, TablesOk, OwnOk, RightsOk;
  }

  lemma ReleaseKeepsUser(s: State, d: Frame, first: int, cnt: nat)
    requires IsRange(s, d, first, cnt)
    requires Range(d, first, cnt) <= s.pending
    requires Inv(s)
    ensures var t := Release(s, d, first, cnt); Sizes(t) && UserOk(t)
  {
    assert BOOT_DIR !in s.userBits by { hide *; BootIsNoUserDir(s); }
    hide KEntry, UEntry, Present, FrameOf, KernelOk, DirsOk, TablesOk, OwnOk, PendingOk, RightsOk;
  }

  lemma ReleaseKeepsInv(s: State, d: Frame, first: int, cnt: nat)
    requires IsRange(s, d, first, cnt)
    requires Range(d, first, cnt) <= s.pending
    requires Inv(s)
    ensures Inv(Release(s, d, first, cnt))
  {
    var t := Release(s, d, first, cnt);
    hide Sizes, DirsOk, KernelOk, TablesOk, UserOk, OwnOk, PendingOk, RightsOk;
    ReleaseKeepsKernel(s, d, first, cnt);
    ReleaseKeepsUser(s, d, first, cnt);
    BitsKeepFrames(s, t);
  }
}
