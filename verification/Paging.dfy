/** Two-level x86 paging and its recursive mapping (v1-src/kernel/memory.c:379-429,
    v1-src/kernel/memory.c:522-526). Physical memory is a sequence of page frames of 1024
    32-bit words; an address is the plain number, and the masks and shifts of the C macros are
    written as the divisions and remainders they compute. */
module Paging {
  import opened Common

  const PAGE_SIZE := 4096
  const FRAMES := 0x10_0000
  const ENTRIES := 1024

  type Frame = f: int | 0 <= f < FRAMES
  type Index = i: int | 0 <= i < ENTRIES
  /** A virtual page number: the upper 20 bits of a virtual address. */
  type VPage = p: int | 0 <= p < FRAMES
  type Page = p: seq<Word> | |p| == ENTRIES witness seq(ENTRIES, i => 0)
  type Memory = m: seq<Page> | |m| == FRAMES witness seq<Page>(FRAMES, i => ZeroPage())

  function ZeroPage(): (p: Page)
    ensures forall i :: 0 <= i < ENTRIES ==> p[i] == 0
  {
    seq(ENTRIES, i => 0)
  }

  function PdeIdx(vaddr: Word): Index { vaddr / 0x40_0000 }

  function PteIdx(vaddr: Word): Index { vaddr / 0x1000 % 1024 }

  /** `pte_ptr`: 0xffc00000 + ((vaddr & 0xffc00000) >> 10) + PTE_IDX(vaddr) * 4. */
  function PtePtr(vaddr: Word): Word {
    0xffc0_0000 + (vaddr - vaddr % 0x40_0000) / 0x400 + PteIdx(vaddr) * 4
  }

  /** `pde_ptr`: 0xfffff000 + PDE_IDX(vaddr) * 4. */
  function PdePtr(vaddr: Word): Word {
    0xffff_f000 + PdeIdx(vaddr) * 4
  }

  /** PG_P_1, and the frame number in bits 31..12 of an entry. */
  predicate Present(entry: Word) { entry % 2 == 1 }

  function FrameOf(entry: Word): Frame { entry / PAGE_SIZE }

  /** R/W, bit 1 of an entry: stores are allowed. */
  predicate Writable(entry: Word) { entry / 2 % 2 == 1 }

  /** U/S, bit 2 of an entry: programs in user mode have access. */
  predicate UserMode(entry: Word) { entry / 4 % 2 == 1 }

  /** The entry lets a store of a user program through. */
  predicate Admits(entry: Word) { Present(entry) && Writable(entry) && UserMode(entry) }

  /** `frame | PG_US_U | PG_RW_W | PG_P_1`. */
  function EntryFor(f: Frame): (entry: Word)
    ensures Present(entry) && FrameOf(entry) == f && Admits(entry)
  {
    f * PAGE_SIZE + 7
  }

  /** `*pte &= ~PG_P_1`. */
  function WithoutPresent(entry: Word): (e: Word)
    ensures !Present(e) && FrameOf(e) == FrameOf(entry)
  {
    entry - entry % 2
  }

  /** The hardware's translation with 4-KByte pages (section 4.3 of the Intel SDM Volume 3A):
      the page directory in frame `dir` is indexed by bits 31..22, the page table it names by
      bits 21..12; `None` is a page fault. */
  function Walk(mem: Memory, dir: Frame, vaddr: Word): Option<Word> {
    var pde := mem[dir][PdeIdx(vaddr)];
    if !Present(pde) then None
    else
      var pte := mem[FrameOf(pde)][PteIdx(vaddr)];
      if !Present(pte) then None
      else Some(FrameOf(pte) * PAGE_SIZE + vaddr % PAGE_SIZE)
  }

  /** The translation of a store in user mode (section 4.6 of the same volume): both entries must be
      present, writable and for user mode; `None` is a page fault. */
  function UserStoreWalk(mem: Memory, dir: Frame, vaddr: Word): Option<Word> {
    var pde := mem[dir][PdeIdx(vaddr)];
    if !Admits(pde) then None
    else
      var pte := mem[FrameOf(pde)][PteIdx(vaddr)];
      if !Admits(pte) then None
      else Some(FrameOf(pte) * PAGE_SIZE + vaddr % PAGE_SIZE)
  }

  /** Where both entries that are present admit user stores, these see what any access sees. */
  lemma AdmittedStores(mem: Memory, dir: Frame, vaddr: Word)
    requires Present(mem[dir][PdeIdx(vaddr)]) ==> Admits(mem[dir][PdeIdx(vaddr)])
    requires Present(Entry(mem, dir, vaddr / PAGE_SIZE)) ==> Admits(Entry(mem, dir, vaddr / PAGE_SIZE))
    ensures UserStoreWalk(mem, dir, vaddr) == Walk(mem, dir, vaddr)
  {
    assert vaddr / PAGE_SIZE / ENTRIES == PdeIdx(vaddr);
  }

  /** The page-table entry of a page, 0 where there is no page table. */
  function Entry(mem: Memory, dir: Frame, vp: VPage): Word {
    var pde := mem[dir][vp / ENTRIES];
    if Present(pde) then mem[FrameOf(pde)][vp % ENTRIES] else 0
  }

  function WordAt(mem: Memory, paddr: Word): Word {
    mem[paddr / PAGE_SIZE][paddr % PAGE_SIZE / 4]
  }

  function WithEntry(mem: Memory, table: Frame, i: Index, w: Word): Memory {
    mem[table := mem[table][i := w]]
  }

  /** Entry 1023 of the directory names the directory itself (v1-src/boot/loader.s:114-116,
      v1-src/userprog/process.c:84-85). */
  predicate SelfMapped(mem: Memory, dir: Frame) {
    Present(mem[dir][1023]) && FrameOf(mem[dir][1023]) == dir
  }

  /** The walk sees only the page's entry: it faults, or it adds the offset to the frame. */
  lemma WalkIsEntry(mem: Memory, dir: Frame, vaddr: Word)
    ensures var e := Entry(mem, dir, vaddr / PAGE_SIZE);
            Walk(mem, dir, vaddr) == if Present(e) then Some(FrameOf(e) * PAGE_SIZE + vaddr % PAGE_SIZE) else None
  {
    assert vaddr / PAGE_SIZE / ENTRIES == PdeIdx(vaddr);
  }

  /** The 2^20 entries form one array of words at 0xffc00000, in page order. */
  lemma PtePtrIsLinear(vaddr: Word)
    ensures PtePtr(vaddr) == 0xffc0_0000 + 4 * (vaddr / PAGE_SIZE)
  {
    assert vaddr / 0x1000 == 1024 * (vaddr / 0x40_0000) + vaddr / 0x1000 % 1024;
  }

  /** The same on the bits of a 32-bit register, with the masks of the source. */
  lemma PtePtrOnBits(vaddr: bv32)
    ensures 0xffc0_0000 + ((vaddr & 0xffc0_0000) >> 10) + ((vaddr & 0x003f_f000) >> 12) * 4
         == 0xffc0_0000 + ((vaddr >> 12) << 2)
    ensures 0xffff_f000 + ((vaddr & 0xffc0_0000) >> 22) * 4 == 0xffff_f000 | ((vaddr >> 22) << 2)
  {
  }

  /** For every virtual address, the address computed by `pte_ptr` is walked by the hardware to
      the very page-table entry that the walk of the address itself reads, and faults exactly
      when there is no page table; `pde_ptr` always reaches the directory entry. */
  lemma SelfMapReachesEntry(mem: Memory, dir: Frame, vaddr: Word)
    requires SelfMapped(mem, dir)
    ensures var pde := mem[dir][PdeIdx(vaddr)];
            Walk(mem, dir, PtePtr(vaddr)) ==
              if Present(pde) then Some(FrameOf(pde) * PAGE_SIZE + 4 * PteIdx(vaddr)) else None
    ensures Walk(mem, dir, PdePtr(vaddr)) == Some(dir * PAGE_SIZE + 4 * PdeIdx(vaddr))
  {
    PtePtrIsLinear(vaddr);
    var p := PtePtr(vaddr);
    assert PdeIdx(p) == 1023;
    assert PteIdx(p) == PdeIdx(vaddr);
    assert p % PAGE_SIZE == 4 * PteIdx(vaddr);
    var q := PdePtr(vaddr);
    assert PdeIdx(q) == 1023 && PteIdx(q) == 1023 && q % PAGE_SIZE == 4 * PdeIdx(vaddr);
  }

  /** The words seen through the two windows are the entries of the page. */
  lemma SelfMapReads(mem: Memory, dir: Frame, vaddr: Word)
    requires SelfMapped(mem, dir)
    ensures WordAt(mem, Walk(mem, dir, PdePtr(vaddr)).value) == mem[dir][PdeIdx(vaddr)]
    ensures Present(mem[dir][PdeIdx(vaddr)]) ==>
              WordAt(mem, Walk(mem, dir, PtePtr(vaddr)).value) == Entry(mem, dir, vaddr / PAGE_SIZE)
  {
    SelfMapReachesEntry(mem, dir, vaddr);
    assert vaddr / PAGE_SIZE / ENTRIES == PdeIdx(vaddr);
  }

  /** Memory after a store through directory `dir`; a page fault writes nothing. */
  function Stored(mem: Memory, dir: Frame, vaddr: Word, w: Word): Memory {
    match Walk(mem, dir, vaddr)
    case Some(paddr) => WithEntry(mem, paddr / PAGE_SIZE, paddr % PAGE_SIZE / 4, w)
    case None => mem
  }

  /** A store through the windows writes the entry itself. */
  lemma SelfMapWrites(mem: Memory, dir: Frame, vaddr: Word, w: Word)
    requires SelfMapped(mem, dir)
    ensures Stored(mem, dir, PdePtr(vaddr), w) == WithEntry(mem, dir, PdeIdx(vaddr), w)
    ensures Present(mem[dir][PdeIdx(vaddr)]) ==>
              Stored(mem, dir, PtePtr(vaddr), w) == WithEntry(mem, FrameOf(mem[dir][PdeIdx(vaddr)]), PteIdx(vaddr), w)
  {
    SelfMapReachesEntry(mem, dir, vaddr);
    hide Walk, PtePtr, PdePtr, PteIdx, PdeIdx;
  }

  lemma Remainder(q: nat, r: nat)
    requires r < PAGE_SIZE
    ensures (PAGE_SIZE * q + r) % PAGE_SIZE == r
  {
  }

  /** The page of the window that holds the entries of a table starts at the first one's address. */
  lemma WindowPage(vaddr: Word)
    ensures PtePtr(vaddr) % PAGE_SIZE == 4 * PteIdx(vaddr)
    ensures var first := vaddr - vaddr % 0x40_0000;
            PdeIdx(first) == PdeIdx(vaddr) && PteIdx(first) == 0
                && PtePtr(first) == PtePtr(vaddr) - PtePtr(vaddr) % PAGE_SIZE
  {
    var di: int, ti: int := PdeIdx(vaddr), PteIdx(vaddr);
    assert vaddr - vaddr % 0x40_0000 == 0x40_0000 * di;
    assert PtePtr(vaddr) == PAGE_SIZE * (0xffc00 + di) + 4 * ti;
    Remainder(0xffc00 + di, 4 * ti);
  }

  /** After a new table frame is entered, its page in the window is that frame; once cleared, the
      entry is not present. */
  lemma NewTableThroughWindow(mem: Memory, dir: Frame, vaddr: Word, table: Frame)
    requires SelfMapped(mem, dir) && table != dir && PdeIdx(vaddr) != 1023
    ensures var entered := WithEntry(mem, dir, PdeIdx(vaddr), EntryFor(table));
            && SelfMapped(entered, dir)
            && Walk(entered, dir, PtePtr(vaddr) - PtePtr(vaddr) % PAGE_SIZE) == Some(table * PAGE_SIZE)
            && var cleared := entered[table := ZeroPage()];
               && SelfMapped(cleared, dir)
               && cleared[dir][PdeIdx(vaddr)] == EntryFor(table)
               && !Present(Entry(cleared, dir, vaddr / PAGE_SIZE))
               && Present(EntryFor(table)) && FrameOf(EntryFor(table)) == table
  {
    hide PtePtr, Walk, PdeIdx, PteIdx;
    var entered := WithEntry(mem, dir, PdeIdx(vaddr), EntryFor(table));
    WindowPage(vaddr);
    SelfMapReachesEntry(entered, dir, vaddr - vaddr % 0x40_0000);
    PageOfTable(vaddr);
  }

  lemma PageOfTable(vaddr: Word)
    ensures vaddr / PAGE_SIZE / ENTRIES == PdeIdx(vaddr) && vaddr / PAGE_SIZE % ENTRIES == PteIdx(vaddr)
  {
  }

  /** n words of frame `from`, starting at word j, copied to frame `to`, starting at word i. */
  function WordsCopied(mem: Memory, to: Frame, i: nat, from: Frame, j: nat, n: nat): Memory
    requires i + n <= ENTRIES && j + n <= ENTRIES
  {
    mem[to := mem[to][..i] + mem[from][j..j + n] + mem[to][i + n..]]
  }
}
