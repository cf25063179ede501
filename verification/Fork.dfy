/** Page directories of new processes and the address-space copy of fork as functions on the state
    (v1-src/userprog/process.c:74-88, v1-src/userprog/fork.c:42-69). */
module Fork {
  import opened Paging
  import opened Vm
  import opened Allocation

  // ---------- a new page directory ----------

  /** The contents `create_page_dir` gives a zeroed page: the kernel half of the active directory
      and, in entry 1023, the page itself. */
  function NewDirPage(mem: Memory, dir: Frame, f: Frame): Page {
    ZeroPage()[..KERNEL_DI] + mem[dir][KERNEL_DI..SELF] + [EntryFor(f)]
  }

  /** The pages of a bitmap whose bits are set, from bit k on, in the space of `dir`. */
  function SetPages(dir: Frame, bits: seq<bool>, k: int): (r: set<(Frame, int)>)
    ensures forall e, vp :: (e, vp) in r <==>
            && e == dir && USER_START <= vp < USER_START + |bits| && vp >= USER_START + k
            && bits[vp - USER_START]
  {
    set vp | USER_START <= vp < USER_START + |bits| && vp >= USER_START + k && bits[vp - USER_START] :: (dir, vp)
  }

  /** The heap page `child` becomes a directory whose virtual bitmap is a copy of the parent's. */
  function Adopt(s: State, child: Frame, bits: seq<bool>): State {
    s.(userBits := s.userBits[child := bits], pending := s.pending + SetPages(child, bits, 0))
  }

  ghost predicate CanAdopt(s: State, child: Frame, bits: seq<bool>) {
    && IsData(s, child) && s.own[child].KernelPage? && |bits| == USER_PAGES
    && KernelHalf(s.mem, child) && LowerHalfEmpty(s.mem, child)
  }

  lemma AdoptKeepsOwn(s: State, child: Frame, bits: seq<bool>)
    requires CanAdopt(s, child, bits)
    requires Inv(s)
    ensures var t := Adopt(s, child, bits); Sizes(t) && OwnOk(t) && KernelOk(t)
  {
    var t := Adopt(s, child, bits);
    assert child != BOOT_DIR by {
      hide KernelOk, DirsOk, TablesOk, UserOk, PendingOk, RightsOk;
      assert RoleOk(s, child);
    }
    hide KEntry, UEntry, Present, FrameOf, DirsOk, TablesOk, UserOk, PendingOk, KernelHalf, LowerHalfEmpty, RightsOk;
    assert forall g :: g in t.own ==> RoleOk(s, g) && RoleOk(t, g);
  }

  lemma EmptyDirHasNoPage(s: State, child: Frame, bits: seq<bool>)
    requires CanAdopt(s, child, bits)
    requires Inv(s)
    ensures child != BOOT_DIR && forall vp :: !Present(UEntry(s.mem, child, vp))
  {
    hide KernelOk, DirsOk, TablesOk, UserOk, PendingOk, RightsOk;
    assert RoleOk(s, child);
  }

  lemma AdoptKeepsUser(s: State, child: Frame, bits: seq<bool>)
    requires CanAdopt(s, child, bits)
    requires Inv(s)
    ensures var t := Adopt(s, child, bits); Sizes(t) && UserOk(t) && PendingOk(t)
  {
    hide KEntry, UEntry, Present, FrameOf, DirsOk, TablesOk, KernelOk, OwnOk, KernelHalf, LowerHalfEmpty, RightsOk;
    EmptyDirHasNoPage(s, child, bits);
  }

  lemma AdoptKeepsInv(s: State, child: Frame, bits: seq<bool>)
    requires CanAdopt(s, child, bits)
    requires Inv(s)
    ensures Inv(Adopt(s, child, bits))
  {
    var t := Adopt(s, child, bits);
    assert DirsOk(t) && TablesOk(t) by { hide KernelOk, UserOk, OwnOk, PendingOk, KEntry, UEntry, RightsOk; }
    hide Sizes, KernelOk, UserOk, OwnOk, PendingOk, DirsOk, TablesOk, RightsOk;
    AdoptKeepsOwn(s, child, bits);
    AdoptKeepsUser(s, child, bits);
    EmptyDirHasNoPage(s, child, bits);
    AdoptKeepsRights(s, child, bits);
  }

  lemma AdoptKeepsRights(s: State, child: Frame, bits: seq<bool>)
    requires RightsOk(s) && LowerHalfEmpty(s.mem, child) && forall vp :: !Present(UEntry(s.mem, child, vp))
    ensures RightsOk(Adopt(s, child, bits))
  {
    hide KEntry, UEntry, Present, Admits;
  }

  /** A heap page filled by `create_page_dir` can be adopted. */
  lemma NewDirCanBeAdopted(s: State, dir: Frame, f: Frame, bits: seq<bool>)
    requires IsDir(s, dir) && IsData(s, f) && s.own[f].KernelPage? && |bits| == USER_PAGES
    requires Inv(s)
    ensures CanAdopt(WriteData(s, f, NewDirPage(s.mem, dir, f)), f, bits)
  {
    DirIsSelfMapped(s, dir);
    hide Inv, EntryFor;
    var page := NewDirPage(s.mem, dir, f);
    assert forall di: Index :: 0 <= di < KERNEL_DI ==> page[di] == 0;
    assert forall di: Index :: KERNEL_DI <= di < SELF ==> page[di] == s.mem[dir][di];
  }

  // ---------- the copy loop ----------

  /** The frame a user page is mapped to. */
  function UserFrame(s: State, d: Frame, vp: int): Frame {
    FrameOf(UEntry(s.mem, d, vp))
  }

  /** The child's bitmap bit of a user page. */
  predicate IsSet(bits: seq<bool>, vp: int) {
    USER_START <= vp < USER_START + |bits| && bits[vp - USER_START]
  }

  /** One set bit of the loop of `copy_body_stack3`: the parent's page is copied to the buffer
      page, the child's page is mapped through the child's directory, and the buffer is copied
      into it. */
  function CopiedPage(s: State, parent: Frame, child: Frame, buf: Frame, vp: int): Outcome<State> {
    var t := WriteData(s, buf, s.mem[UserFrame(s, parent, vp)]);
    match OneMapped(t, child, PF_USER, vp)
    case Done(u) => Done(WriteData(u, UserFrame(u, child, vp), u.mem[buf]))
    case _ => Halt
  }

  /** The state during the copy, s being the state before it: of the child's pages below `vp`
      exactly the set ones are mapped, to frames not in use in s and with the contents of the
      parent's pages; nothing of any other space, and no data but the buffer's, is different. */
  ghost predicate CopiedUpTo(s: State, t: State, parent: Frame, child: Frame, buf: Frame, vp: int) {
    && SameBits(s, t) && child in s.userBits && USER_START <= vp
    && t.pending == SetPages(child, s.userBits[child], vp - USER_START)
    && EntriesExcept(s, t.mem, child, USER_START, vp - USER_START)
    && OwnGrows(s, t, child, USER_START, vp - USER_START)
    && (forall v :: USER_START <= v < vp && IsSet(s.userBits[child], v) ==>
          Present(UEntry(t.mem, child, v)) && UserFrame(t, child, v) !in s.own
              && t.mem[UserFrame(t, child, v)] == s.mem[UserFrame(s, parent, v)])
    && (forall f: Frame :: IsData(s, f) && f != buf ==> t.mem[f] == s.mem[f])
  }

  /** Before the copy: the child is a directory of its own with the parent's bitmap and no page
      mapped yet, and the buffer is an ordinary heap page. */
  ghost predicate CopyReady(s: State, parent: Frame, child: Frame, buf: Frame) {
    && parent in s.userBits && child in s.userBits && parent != child
    && s.userBits[child] == s.userBits[parent]
    && IsData(s, buf) && s.own[buf].KernelPage?
    && s.pending == SetPages(child, s.userBits[child], 0)
  }

  lemma PresentIsData(s: State, d: Frame, vp: int)
    requires d in s.userBits && Present(UEntry(s.mem, d, vp)) && 0 <= vp < KERNEL_BASE
    requires Inv(s)
    ensures var f := UserFrame(s, d, vp); f in s.own && s.own[f] == UserPage(d, vp) && IsData(s, f)
  {
    assert var f := UserFrame(s, d, vp); f in s.own && s.own[f] == UserPage(d, vp) by {
      hide OwnOk, TablesOk, DirsOk, RightsOk;
    }
    hide KernelOk, UserOk, OwnOk, TablesOk, KernelHalf, RightsOk;
  }

  lemma SetIsPresent(s: State, d: Frame, vp: int)
    requires d in s.userBits && IsSet(s.userBits[d], vp) && (d, vp) !in s.pending
    requires Inv(s)
    ensures Present(UEntry(s.mem, d, vp)) && 0 <= vp < KERNEL_BASE
  {
    hide KernelOk, OwnOk, TablesOk, DirsOk, PendingOk, UEntry, Present, RightsOk;
  }

  /** What the three parts of one round leave behind. */
  ghost predicate CopyRound(t: State, t1: State, u1: State, u2: State, child: Frame, buf: Frame, vp: int, page: Page,
      nf: Frame) {
    && IsData(t, buf) && t.own[buf].KernelPage?
    && t1 == WriteData(t, buf, page) && SameEntries(t, t1.mem)
    && MapsExactly(t1, u1, child, vp, 1)
    && nf == UserFrame(u1, child, vp) && IsData(u1, nf) && u1.own[nf] == UserPage(child, vp)
    && u2 == WriteData(u1, nf, page) && SameEntries(u1, u2.mem)
  }

  lemma RoundOfCopy(s: State, t: State, parent: Frame, child: Frame, buf: Frame, vp: int)
    returns (t1: State, u1: State, u2: State, nf: Frame)
    requires CopyReady(s, parent, child, buf) && CopiedUpTo(s, t, parent, child, buf, vp) && IsUserVp(vp)
    requires IsSet(s.userBits[child], vp) && CopiedPage(t, parent, child, buf, vp).Done?
    requires Inv(s) && Inv(t)
    ensures Inv(u2) && CopiedPage(t, parent, child, buf, vp) == Done(u2)
    ensures CopyRound(t, t1, u1, u2, child, buf, vp, s.mem[UserFrame(s, parent, vp)], nf)
  {
    hide Inv, KEntry, UEntry, Present, FrameOf, MapsExactly, SameEntries, OneMapped;
    SetIsPresent(s, parent, vp);
    PresentIsData(s, parent, vp);
    var page := s.mem[UserFrame(s, parent, vp)];
    assert UserFrame(t, parent, vp) == UserFrame(s, parent, vp);
    assert t.mem[UserFrame(t, parent, vp)] == page;
    WriteDataKeepsInv(t, buf, page);
    t1 := WriteData(t, buf, page);
    assert CanMapOne(t1, child, PF_USER, vp);
    var f, ready, u := RoundKeepsInv(t1, child, PF_USER, vp);
    u1 := u;
    RoundIsExact(t1, child, PF_USER, vp, f, ready, u1);
    nf := MappedPageIsData(t1, u1, child, vp);
    assert u1.mem[buf] == page by { BufferKept(t1, u1, child, vp, buf); }
    WriteDataKeepsInv(u1, nf, page);
    u2 := WriteData(u1, nf, page);
  }

  lemma MappedPageIsData(t: State, u: State, child: Frame, vp: int) returns (nf: Frame)
    requires MapsExactly(t, u, child, vp, 1) && child in t.userBits && IsUserVp(vp)
    requires Inv(u)
    ensures nf == UserFrame(u, child, vp) && IsData(u, nf) && u.own[nf] == UserPage(child, vp)
  {
    hide Inv, KEntry, UEntry, Present, FrameOf, EntriesExcept, OwnGrows, DataKept;
    assert IsPlace(t, child, vp);
    PresentIsData(u, child, vp);
    nf := UserFrame(u, child, vp);
  }

  lemma BufferKept(t: State, u: State, child: Frame, vp: int, buf: Frame)
    requires MapsExactly(t, u, child, vp, 1) && IsData(t, buf)
    ensures u.mem[buf] == t.mem[buf]
  {
  }

  lemma RoundCopiesPage(s: State, t: State, t1: State, u1: State, u2: State, parent: Frame, child: Frame, buf: Frame,
      vp: int, nf: Frame)
    requires CopyReady(s, parent, child, buf) && CopiedUpTo(s, t, parent, child, buf, vp) && IsUserVp(vp)
    requires CopyRound(t, t1, u1, u2, child, buf, vp, s.mem[UserFrame(s, parent, vp)], nf)
    requires EarlierPagesAreData(s, t, child, buf, vp)
    ensures CopiedUpTo(s, u2, parent, child, buf, vp + 1)
  {
    hide KEntry, UEntry, Present, FrameOf;
    assert IsPlace(t1, child, vp);
    assert UserFrame(u2, child, vp) == nf && Present(UEntry(u2.mem, child, vp));
    assert nf !in t1.own;
    assert u2.pending == SetPages(child, s.userBits[child], vp + 1 - USER_START);
    assert EntriesExcept(s, u2.mem, child, USER_START, vp + 1 - USER_START);
    forall v | USER_START <= v < vp && IsSet(s.userBits[child], v)
      ensures Present(UEntry(u2.mem, child, v)) && UserFrame(u2, child, v) !in s.own
              && u2.mem[UserFrame(u2, child, v)] == s.mem[UserFrame(s, parent, v)]
    {
      var g := UserFrame(t, child, v);
      assert UEntry(u2.mem, child, v) == UEntry(t.mem, child, v);
      assert IsData(t, g) && g != buf;
      assert IsData(t1, g);
    }
    hide EntriesExcept;
    assert OwnGrows(s, u2, child, USER_START, vp + 1 - USER_START);
    assert forall f: Frame :: IsData(s, f) && f != buf ==> IsData(t1, f);
  }

  ghost predicate EarlierPagesAreData(s: State, t: State, child: Frame, buf: Frame, vp: int) {
    child in s.userBits &&
    forall v :: USER_START <= v < vp && IsSet(s.userBits[child], v) ==>
        IsData(t, UserFrame(t, child, v)) && UserFrame(t, child, v) != buf
  }

  lemma EarlierPages(s: State, t: State, parent: Frame, child: Frame, buf: Frame, vp: int)
    requires CopyReady(s, parent, child, buf) && CopiedUpTo(s, t, parent, child, buf, vp) && vp <= KERNEL_BASE
    requires Inv(t)
    ensures EarlierPagesAreData(s, t, child, buf, vp)
  {
    hide Inv, KEntry, UEntry, Present, FrameOf, EntriesExcept, OwnGrows;
    forall v | USER_START <= v < vp && IsSet(s.userBits[child], v)
      ensures IsData(t, UserFrame(t, child, v)) && UserFrame(t, child, v) != buf
    {
      PresentIsData(t, child, v);
    }
  }

  lemma CopyStep(s: State, t: State, parent: Frame, child: Frame, buf: Frame, vp: int) returns (u: State)
    requires CopyReady(s, parent, child, buf) && CopiedUpTo(s, t, parent, child, buf, vp) && IsUserVp(vp)
    requires IsSet(s.userBits[child], vp) && CopiedPage(t, parent, child, buf, vp).Done?
    requires Inv(s) && Inv(t)
    ensures CopiedPage(t, parent, child, buf, vp) == Done(u) && Inv(u) && CopiedUpTo(s, u, parent, child, buf, vp + 1)
  {
    hide Inv, CopyReady, CopiedUpTo, CopiedPage, CopyRound, EarlierPagesAreData;
    EarlierPages(s, t, parent, child, buf, vp);
    var t1, u1, u2, nf := RoundOfCopy(s, t, parent, child, buf, vp);
    RoundCopiesPage(s, t, t1, u1, u2, parent, child, buf, vp, nf);
    u := u2;
  }

  /** A clear bit is passed over. */
  lemma ClearBitStep(s: State, t: State, parent: Frame, child: Frame, buf: Frame, vp: int)
    requires CopyReady(s, parent, child, buf) && CopiedUpTo(s, t, parent, child, buf, vp) && IsUserVp(vp)
    requires !IsSet(s.userBits[child], vp)
    requires Inv(s)
    ensures CopiedUpTo(s, t, parent, child, buf, vp + 1)
  {
    hide Inv, KEntry, UEntry, Present, FrameOf, EntriesExcept, OwnGrows;
    SizesOf(s);
    EntriesExceptMore(s, t.mem, child, USER_START, vp - USER_START);
    OwnGrowsMore(s, t, child, USER_START, vp - USER_START);
    assert t.pending == SetPages(child, s.userBits[child], vp + 1 - USER_START);
  }

  lemma EntriesExceptMore(s: State, mem: Memory, d: Frame, first: int, n: nat)
    requires EntriesExcept(s, mem, d, first, n)
    ensures EntriesExcept(s, mem, d, first, n + 1)
  {
    hide KEntry, UEntry;
  }

  lemma OwnGrowsMore(s: State, t: State, d: Frame, first: int, n: nat)
    requires OwnGrows(s, t, d, first, n)
    ensures OwnGrows(s, t, d, first, n + 1)
  {
  }

  lemma CopyBegins(s: State, parent: Frame, child: Frame, buf: Frame)
    requires CopyReady(s, parent, child, buf)
    ensures CopiedUpTo(s, s, parent, child, buf, USER_START)
  {
    hide KEntry, UEntry, Present, FrameOf;
  }

  // ---------- what stays the same for the processes there are ----------

  /** Every space of s is there in t with the same bits, entries and contents of mapped pages, and
      every frame in use keeps its use. */
  ghost predicate SpacesKept(s: State, t: State) {
    && (forall d :: d in s.userBits ==> d in t.userBits && t.userBits[d] == s.userBits[d])
    && (forall d, vp :: d in s.userBits && 0 <= vp < KERNEL_BASE ==> UEntry(t.mem, d, vp) == UEntry(s.mem, d, vp))
    && (forall f: Frame :: f in s.own && s.own[f].UserPage? ==> t.mem[f] == s.mem[f])
    && (forall f :: f in s.own ==> f in t.own && t.own[f] == s.own[f])
  }

  lemma SpacesKeptTrans(s: State, t: State, u: State)
    requires SpacesKept(s, t) && SpacesKept(t, u)
    ensures SpacesKept(s, u)
  {
    hide UEntry;
  }

  lemma HeapMappingKeepsSpaces(s: State, u: State, first: int, n: nat)
    requires IsRange(s, BOOT_DIR, first, n) && MapsExactly(Reserve(s, BOOT_DIR, first, n), u, BOOT_DIR, first, n)
    requires Inv(s)
    ensures SpacesKept(s, u)
  {
    BootIsNoUserDir(s);
    UserPagesAreData(s);
    hide Inv, KEntry, UEntry, Present, FrameOf;
    var r := Reserve(s, BOOT_DIR, first, n);
    assert forall f: Frame :: f in s.own && s.own[f].UserPage? ==> IsData(r, f);
  }

  lemma UserPagesAreData(s: State)
    requires Inv(s)
    ensures forall f: Frame :: f in s.own && s.own[f].UserPage? ==> IsData(s, f)
  {
    hide KernelOk, UserOk, OwnOk, TablesOk, KernelHalf, RightsOk;
  }

  lemma HeapUnmappingKeepsSpaces(s: State, t: State, first: int, n: nat)
    requires UnmapsExactly(s, t, BOOT_DIR, first, n) && IsRange(t, BOOT_DIR, first, n)
    requires Inv(s)
    ensures forall d :: d in s.userBits ==> d in t.userBits && t.userBits[d] == s.userBits[d]
    ensures forall d, vp :: d in s.userBits && 0 <= vp < KERNEL_BASE ==> UEntry(t.mem, d, vp) == UEntry(s.mem, d, vp)
    ensures forall f: Frame :: f in s.own && s.own[f].UserPage? ==> t.mem[f] == s.mem[f]
    ensures forall f :: f in s.own && !IsRoleIn(s.own[f], BOOT_DIR, first, n) ==> f in t.own && t.own[f] == s.own[f]
  {
    BootIsNoUserDir(s);
    UserPagesAreData(s);
    UserPagesAreNotBoot(s);
    hide Inv, KEntry, UEntry, Present, FrameOf;
    assert forall f: Frame :: f in s.own && s.own[f].UserPage? ==> IsData(t, f);
  }

  lemma UserPagesAreNotBoot(s: State)
    requires Inv(s)
    ensures forall f :: f in s.own && s.own[f].UserPage? ==> s.own[f].dir != BOOT_DIR
  {
    BootIsNoUserDir(s);
    hide KernelOk, UserOk, DirsOk, TablesOk, PendingOk, KEntry, UEntry, RightsOk;
    assert forall f :: f in s.own ==> RoleOk(s, f);
  }

  lemma HeapWriteKeepsSpaces(s: State, f: Frame, page: Page)
    requires f in s.own && s.own[f].KernelPage? && SameEntries(s, WriteData(s, f, page).mem)
    ensures SpacesKept(s, WriteData(s, f, page))
  {
    hide KEntry, UEntry;
  }

  lemma AdoptKeepsSpaces(s: State, child: Frame, bits: seq<bool>)
    requires child !in s.userBits
    ensures SpacesKept(s, Adopt(s, child, bits))
  {
  }

  lemma CopyKeepsSpaces(s: State, t: State, parent: Frame, child: Frame, buf: Frame, vp: int)
    requires CopyReady(s, parent, child, buf) && CopiedUpTo(s, t, parent, child, buf, vp)
    requires Inv(s)
    ensures forall d :: d in s.userBits ==> d in t.userBits && t.userBits[d] == s.userBits[d]
    ensures forall d, v :: d in s.userBits && d != child && 0 <= v < KERNEL_BASE ==>
            UEntry(t.mem, d, v) == UEntry(s.mem, d, v)
    ensures forall f: Frame :: f in s.own && s.own[f].UserPage? ==> t.mem[f] == s.mem[f]
    ensures forall f :: f in s.own ==> f in t.own && t.own[f] == s.own[f]
  {
    UserPagesAreData(s);
    hide Inv, KEntry, UEntry, Present, FrameOf;
  }

  /** The result of fork's copy: the child maps exactly the parent's pages, each to a frame that
      nothing used before and with equal contents; the parent's pages, and every page of every
      other space, are mapped as before with the same contents. */
  ghost predicate Snapshot(s: State, t: State, parent: Frame, child: Frame) {
    && parent in s.userBits && child in t.userBits && child !in s.userBits
    && t.userBits[child] == s.userBits[parent]
    && (forall vp :: 0 <= vp < KERNEL_BASE ==>
        (Present(UEntry(t.mem, child, vp)) <==> Present(UEntry(s.mem, parent, vp))))
    && (forall vp :: 0 <= vp < KERNEL_BASE && Present(UEntry(s.mem, parent, vp)) ==>
          UserFrame(t, child, vp) !in s.own && t.mem[UserFrame(t, child, vp)] == s.mem[UserFrame(s, parent, vp)])
    && (forall d, vp :: d in s.userBits && 0 <= vp < KERNEL_BASE ==>
          d in t.userBits && t.userBits[d] == s.userBits[d] && UEntry(t.mem, d, vp) == UEntry(s.mem, d, vp)
          && (Present(UEntry(s.mem, d, vp)) ==> t.mem[UserFrame(s, d, vp)] == s.mem[UserFrame(s, d, vp)]))
  }

  /** From the state s0 before fork, through the state s before the copy and t after it, to the
      state w after the buffer page is given back. */
  lemma CopyIsSnapshot(s0: State, s: State, t: State, w: State, parent: Frame, child: Frame, buf: Frame)
    requires parent in s0.userBits && child !in s0.userBits && SpacesKept(s0, s)
    requires CopyReady(s, parent, child, buf) && CopiedUpTo(s, t, parent, child, buf, KERNEL_BASE)
    requires Inv(s0) && Inv(s) && Inv(t)
    requires forall d :: d in t.userBits ==> d in w.userBits && w.userBits[d] == t.userBits[d]
    requires forall d, vp :: d in t.userBits && 0 <= vp < KERNEL_BASE ==> UEntry(w.mem, d, vp) == UEntry(t.mem, d, vp)
    requires forall f: Frame :: f in t.own && t.own[f].UserPage? ==> w.mem[f] == t.mem[f]
    ensures Snapshot(s0, w, parent, child)
  {
    hide Inv, KEntry, UEntry, Present, FrameOf;
    CopyKeepsSpaces(s, t, parent, child, buf, KERNEL_BASE);
    forall d, vp | d in s0.userBits && 0 <= vp < KERNEL_BASE
      ensures d in w.userBits && w.userBits[d] == s0.userBits[d] && UEntry(w.mem, d, vp) == UEntry(s0.mem, d, vp)
      ensures Present(UEntry(s0.mem, d, vp)) ==> w.mem[UserFrame(s0, d, vp)] == s0.mem[UserFrame(s0, d, vp)]
    {
      assert UEntry(s.mem, d, vp) == UEntry(s0.mem, d, vp);
      if Present(UEntry(s0.mem, d, vp)) {
        PresentIsData(s0, d, vp);
      }
    }
    forall vp | 0 <= vp < KERNEL_BASE
      ensures Present(UEntry(w.mem, child, vp)) <==> Present(UEntry(s0.mem, parent, vp))
      ensures Present(UEntry(s0.mem, parent, vp)) ==>
          UserFrame(w, child, vp) !in s0.own && w.mem[UserFrame(w, child, vp)] == s0.mem[UserFrame(s0, parent, vp)]
    {
      assert UEntry(w.mem, child, vp) == UEntry(t.mem, child, vp)
          && UEntry(s.mem, parent, vp) == UEntry(s0.mem, parent, vp);
      BitIffPresent(s, parent, vp);
      BitIffPresent(t, child, vp);
      if Present(UEntry(s0.mem, parent, vp)) {
        PresentIsData(s0, parent, vp);
        PresentIsData(t, child, vp);
      }
    }
  }

  lemma BitIffPresent(s: State, d: Frame, vp: int)
    requires d in s.userBits && 0 <= vp < KERNEL_BASE && (d, vp) !in s.pending
    requires Inv(s)
    ensures Present(UEntry(s.mem, d, vp)) <==> IsSet(s.userBits[d], vp)
  {
    hide KernelOk, OwnOk, TablesOk, DirsOk, PendingOk, UEntry, Present, RightsOk;
  }
}
