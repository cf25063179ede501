/** Every reachable state of the memory manager: any sequence of page allocations and releases, new
    address spaces, forks and writes to data, from the state in which the kernel starts. */
module VmRuns {
  import opened Common
  import opened Paging
  import opened Vm
  import opened Allocation
  import opened Fork
  import Bitmaps
  import Boot

  datatype Call =
    // `malloc_page` with directory dir active; guard is the bit behind the bitmap
    | MallocPages(dir: Frame, pf: PoolFlag, cnt: nat, guard: bool)
    | GetPage(dir: Frame, pf: PoolFlag, vp: int)            // `get_a_page`
    | FreePages(d: Frame, first: int, cnt: nat)             // `mfree_page` of mapped pages of space d
    | NewSpace(dir: Frame, f: Frame)                        // heap page f becomes a process's directory
    | ForkSpace(parent: Frame, child: Frame, buf: Frame)    // fork, with heap pages for directory and buffer
    | Write(f: Frame, page: Page)                           // a data page gets any contents

  ghost predicate IsHeapData(s: State, f: Frame) { IsData(s, f) && s.own[f].KernelPage? }

  ghost predicate Enabled(s: State, c: Call) {
    match c
    case MallocPages(dir, pf, cnt, guard) =>
      && 0 < cnt < MAX_PAGES && IsDir(s, dir) && (pf == PF_USER ==> dir in s.userBits)
      && Bitmaps.ScanExact(BitsOf(s, PoolSpace(dir, pf)), guard, cnt)
    case GetPage(dir, pf, vp) => (pf == PF_KERNEL ==> dir == BOOT_DIR) && CanGet(s, dir, pf, vp)
    case FreePages(d, first, cnt) => CanFree(s, d, first, cnt)
    case NewSpace(dir, f) => IsDir(s, dir) && IsHeapData(s, f)
    case ForkSpace(parent, child, buf) => parent in s.userBits && IsHeapData(s, child) && IsHeapData(s, buf)
        && child != buf
    case Write(f, page) => IsData(s, f)
  }

  /** The directory of a new space, with the given virtual bitmap. */
  function SpaceMade(s: State, dir: Frame, f: Frame, bits: seq<bool>): State {
    Adopt(WriteData(s, f, NewDirPage(s.mem, dir, f)), f, bits)
  }

  /** The loops of `copy_body_stack3` from page vp on. */
  function CopyRun(s: State, parent: Frame, child: Frame, buf: Frame, vp: int): Outcome<State>
    decreases KERNEL_BASE - vp
  {
    if vp >= KERNEL_BASE then Done(s)
    else if child !in s.userBits || !IsSet(s.userBits[child], vp) then CopyRun(s, parent, child, buf, vp + 1)
    else match CopiedPage(s, parent, child, buf, vp)
         case Done(u) => CopyRun(u, parent, child, buf, vp + 1)
         case _ => Halt
  }

  ghost function Step(s: State, c: Call): Outcome<State>
    requires Enabled(s, c)
  {
    match c
    case MallocPages(dir, pf, cnt, _) => var r := MallocPage(s, dir, pf, cnt); if r.Null? then Done(s) else r
    case GetPage(dir, pf, vp) => PageGot(s, dir, pf, vp)
    case FreePages(d, first, cnt) => Done(MFreePage(s, d, first, cnt))
    case NewSpace(dir, f) => Done(SpaceMade(s, dir, f, NoBits()))
    case ForkSpace(parent, child, buf) => CopyRun(SpaceMade(s, parent, child, s.userBits[parent]), parent, child, buf,
        USER_START)
    case Write(f, page) => Done(WriteData(s, f, page))
  }

  /** The state after a run; a run ends where a call is not allowed or stops the kernel. */
  ghost function Run(s: State, cs: seq<Call>): Outcome<State>
    decreases |cs|
  {
    if cs == [] || !Enabled(s, cs[0]) then Done(s)
    else match Step(s, cs[0])
         case Done(t) => Run(t, cs[1..])
         case _ => Halt
  }

  lemma MadeIsReady(s: State, dir: Frame, f: Frame, bits: seq<bool>)
    requires IsDir(s, dir) && IsHeapData(s, f) && |bits| == USER_PAGES
    requires Settled(s) && Inv(s)
    ensures var t := SpaceMade(s, dir, f, bits);
            && Inv(t) && t.own == s.own && t.pending == SetPages(f, bits, 0) && t.userBits == s.userBits[f := bits]
                && f !in s.userBits
  {
    hide Inv, CanAdopt;
    NewDirCanBeAdopted(s, dir, f, bits);
    WriteDataKeepsInv(s, f, NewDirPage(s.mem, dir, f));
    AdoptKeepsInv(WriteData(s, f, NewDirPage(s.mem, dir, f)), f, bits);
  }

  lemma {:induction false} CopyRunWorks(s: State, t: State, parent: Frame, child: Frame, buf: Frame, vp: int)
    requires CopyReady(s, parent, child, buf) && CopiedUpTo(s, t, parent, child, buf, vp) && vp <= KERNEL_BASE
    requires CopyRun(t, parent, child, buf, vp).Done?
    requires Inv(s) && Inv(t)
    ensures var u := CopyRun(t, parent, child, buf, vp).value;
            Inv(u) && CopiedUpTo(s, u, parent, child, buf, KERNEL_BASE)
    decreases KERNEL_BASE - vp
  {
    hide Inv, CopyReady, CopiedPage;
    assert child in s.userBits && SameBits(s, t) && USER_START <= vp;
    hide CopiedUpTo;
    if vp < KERNEL_BASE {
      if IsSet(s.userBits[child], vp) {
        var u := CopyStep(s, t, parent, child, buf, vp);
        CopyRunWorks(s, u, parent, child, buf, vp + 1);
      } else {
        ClearBitStep(s, t, parent, child, buf, vp);
        CopyRunWorks(s, t, parent, child, buf, vp + 1);
      }
    }
  }

  lemma CopiedIsSettled(s: State, t: State, parent: Frame, child: Frame, buf: Frame)
    requires CopiedUpTo(s, t, parent, child, buf, KERNEL_BASE) && |s.userBits[child]| == USER_PAGES
    requires forall f :: f in s.own ==> s.own[f] != Reserved
    ensures Settled(t)
  {
    assert t.pending == {};
  }

  lemma ForkKeepsInv(s: State, parent: Frame, child: Frame, buf: Frame)
    requires Enabled(s, ForkSpace(parent, child, buf)) && Step(s, ForkSpace(parent, child, buf)).Done?
    requires Settled(s) && Inv(s)
    ensures var u := Step(s, ForkSpace(parent, child, buf)).value; Inv(u) && Settled(u)
  {
    hide Inv, CopiedUpTo, SpaceMade, CopyRun;
    SizesOf(s);
    MadeIsReady(s, parent, child, s.userBits[parent]);
    var t := SpaceMade(s, parent, child, s.userBits[parent]);
    CopyBegins(t, parent, child, buf);
    CopyRunWorks(t, t, parent, child, buf, USER_START);
    CopiedIsSettled(t, CopyRun(t, parent, child, buf, USER_START).value, parent, child, buf);
  }

  lemma NewSpaceKeepsInv(s: State, dir: Frame, f: Frame)
    requires Enabled(s, NewSpace(dir, f))
    requires Settled(s) && Inv(s)
    ensures var u := SpaceMade(s, dir, f, NoBits()); Inv(u) && Settled(u)
  {
    hide Inv;
    MadeIsReady(s, dir, f, NoBits());
    assert SetPages(f, NoBits(), 0) == {};
  }

  lemma StepKeepsInv(s: State, c: Call)
    requires Enabled(s, c) && Step(s, c).Done?
    requires Settled(s) && Inv(s)
    ensures Inv(Step(s, c).value) && Settled(Step(s, c).value)
  {
    hide Inv, CanFree, CanGet, CopyRun, SpaceMade, MallocPage, PageGot, MFreePage, IsHeapData, MapsExactly;
    match c
    case GetPage(dir, pf, vp) =>
      var u := PageGotIsExact(s, dir, pf, vp);
    case MallocPages(dir, pf, cnt, _) =>
      if MallocPage(s, dir, pf, cnt).Done? {
        var u := MallocPageMapsItsRun(s, dir, pf, cnt);
      }
    case FreePages(d, first, cnt) =>
      var t := MFreePageUnmapsItsRun(s, d, first, cnt);
    case NewSpace(dir, f) => NewSpaceKeepsInv(s, dir, f);
    case ForkSpace(parent, child, buf) => ForkKeepsInv(s, parent, child, buf);
    case Write(f, page) => WriteDataKeepsInv(s, f, page);
  }

  lemma {:induction false} RunKeepsInv(s: State, cs: seq<Call>)
    requires Run(s, cs).Done?
    requires Settled(s) && Inv(s)
    ensures Inv(Run(s, cs).value) && Settled(Run(s, cs).value)
    decreases |cs|
  {
    hide Inv, Settled, Step, Enabled;
    if cs != [] && Enabled(s, cs[0]) {
      StepKeepsInv(s, cs[0]);
      RunKeepsInv(Step(s, cs[0]).value, cs[1..]);
    }
  }

  /** In every reachable state: a bit is set exactly when its page is mapped, no two mapped pages have
      one frame, the set bits of the pools are the frames in use, and every directory translates every
      kernel address outside the window as the boot directory does. */
  lemma EveryReachableState(ram: Memory, allMem: Word, cs: seq<Call>, u: State)
    requires allMem >= 0x20_0000 && Boot.TablesClear(ram) && Run(Boot.Started(ram, allMem), cs) == Done(u)
    ensures Sizes(u)
    ensures forall d, vp :: IsSite(u, d, vp) ==> (BitAt(u, d, vp) <==> Present(At(u.mem, d, vp)))
    ensures forall d, vp, d', vp' ::
              && IsSite(u, d, vp) && IsSite(u, d', vp') && (d, vp) != (d', vp')
              && Present(At(u.mem, d, vp)) && Present(At(u.mem, d', vp')) ==>
              FrameOf(At(u.mem, d, vp)) != FrameOf(At(u.mem, d', vp'))
    ensures forall f: Frame :: PoolBit(u, f) <==> InUse(u, f)
    ensures forall d, vaddr: Word :: IsDir(u, d) && IsKernelVp(vaddr / PAGE_SIZE) ==>
            Walk(u.mem, d, vaddr) == Walk(u.mem, BOOT_DIR, vaddr)
    ensures forall d, vaddr: Word :: d in u.userBits && vaddr / PAGE_SIZE < KERNEL_BASE ==>
            UserStoreWalk(u.mem, d, vaddr) == Walk(u.mem, d, vaddr)
  {
    hide Inv, Settled, Run, BitAt, At, Walk, UserStoreWalk, InUse, PoolBit, FrameOf, Present, IsSite;
    Boot.StartedIsGood(ram, allMem);
    RunKeepsInv(Boot.Started(ram, allMem), cs);
    SizesOf(u);
    forall d, vp | IsSite(u, d, vp) ensures BitAt(u, d, vp) <==> Present(At(u.mem, d, vp)) {
      BitsMatchEntries(u, d, vp);
    }
    forall d, vp, d', vp' | IsSite(u, d, vp) && IsSite(u, d', vp') && (d, vp) != (d', vp') && Present(At(u.mem, d, vp))
        && Present(At(u.mem, d', vp'))
      ensures FrameOf(At(u.mem, d, vp)) != FrameOf(At(u.mem, d', vp'))
    {
      FramesNotShared(u, d, vp, d', vp');
    }
    forall f: Frame ensures PoolBit(u, f) <==> InUse(u, f) {
      PoolsAreFramesInUse(u, f);
    }
    forall d, vaddr: Word | d in u.userBits && vaddr / PAGE_SIZE < KERNEL_BASE
      ensures UserStoreWalk(u.mem, d, vaddr) == Walk(u.mem, d, vaddr)
    {
      UserStores(u, d, vaddr);
    }
    forall d, vaddr: Word | IsDir(u, d) && IsKernelVp(vaddr / PAGE_SIZE)
      ensures Walk(u.mem, d, vaddr) == Walk(u.mem, BOOT_DIR, vaddr)
    {
      KernelHalfShared(u, d, vaddr);
    }
  }
}
