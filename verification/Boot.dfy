/** The state in which the memory manager starts: the page tables that v1-src/boot/loader.s:100-138
    lays down and the empty pools of v1-src/kernel/memory.c:272-338. */
module Boot {
  import opened Common
  import opened Paging
  import opened Vm

  /** The directory of `setup_page`: the first table twice, the tables of entries 769 to 1022, and
      itself. */
  function BootDirPage(): Page {
    seq(ENTRIES, i requires 0 <= i < ENTRIES =>
      if i == 0 || i == KERNEL_DI then EntryFor(0x101)
      else if i == SELF then EntryFor(BOOT_DIR)
      else if KERNEL_DI < i then EntryFor(BootTable(i))
      else 0)
  }

  /** The first table maps the first megabyte to itself; its other words are not written. */
  function FirstTable(before: Page): Page {
    seq(ENTRIES, i requires 0 <= i < ENTRIES => if i < 0x100 then EntryFor(i) else before[i])
  }

  /** Memory after `setup_page`. */
  function SetUp(ram: Memory): Memory {
    ram[BOOT_DIR := BootDirPage()][0x101 := FirstTable(ram[0x101])]
  }

  /** The words of the kernel's tables that the loader does not write hold no present entry, as in
      memory that is zero at power-on. */
  ghost predicate TablesClear(ram: Memory) {
    forall di: Index, k: Index :: KERNEL_DI <= di < SELF && (di > KERNEL_DI || k >= 0x100) ==>
        !Present(ram[BootTable(di)][k])
  }

  // `mem_pool_init`: half of the memory behind the boot pages is the kernel's. Bitmaps are whole bytes.
  function FreePages(allMem: Word): int { (allMem - 0x20_0000) / PAGE_SIZE % 0x1_0000 }

  function KernelPages(allMem: Word): int { FreePages(allMem) / 2 }

  function UserPages(allMem: Word): int { FreePages(allMem) - KernelPages(allMem) }

  function ClearBits(bytes: nat): seq<bool> { seq(8 * bytes, k => false) }

  /** The state after `mem_init` on a machine with that much memory. */
  function Started(ram: Memory, allMem: Word): State
    requires allMem >= 0x20_0000
  {
    State(SetUp(ram), ClearBits(KernelPages(allMem) / 8), map[], ClearBits(KernelPages(allMem) / 8),
        ClearBits(UserPages(allMem) / 8),
          POOL_START + KernelPages(allMem), map[], {})
  }

  lemma PoolSizes(allMem: Word)
    requires allMem >= 0x20_0000
    ensures 0 <= KernelPages(allMem) < 0x8000 && 0 <= UserPages(allMem) <= 0x8000
    ensures 8 * (KernelPages(allMem) / 8) <= KernelPages(allMem) && 8 * (UserPages(allMem) / 8) <= UserPages(allMem)
  {
  }

  /** The kernel starts in a settled state that satisfies the invariant. */
  lemma StartedIsGood(ram: Memory, allMem: Word)
    requires allMem >= 0x20_0000 && TablesClear(ram)
    ensures Inv(Started(ram, allMem)) && Settled(Started(ram, allMem))
  {
    PoolSizes(allMem);
    hide KernelPages, UserPages;
    var s := Started(ram, allMem);
    assert KernelHalf(s.mem, BOOT_DIR) by {
      assert s.mem[BOOT_DIR] == BootDirPage();
    }
    forall vp | InHeap(s, vp) ensures !Present(KEntry(s.mem, vp)) {
      HeapEntryClear(ram, vp);
    }
  }

  lemma HeapEntryClear(ram: Memory, vp: int)
    requires TablesClear(ram) && KERNEL_HEAP <= vp < SELF * ENTRIES
    ensures !Present(KEntry(SetUp(ram), vp))
  {
    var di, k := vp / ENTRIES, vp % ENTRIES;
    assert KERNEL_DI <= di < SELF && (di > KERNEL_DI || k >= 0x100);
    assert !Present(ram[BootTable(di)][k]);
  }

  /** The first megabyte is mapped to itself, and once more from 3 gigabytes on. */
  lemma LowMemoryMapped(ram: Memory)
    ensures forall x: Word :: x < 0x10_0000 ==>
            Walk(SetUp(ram), BOOT_DIR, x) == Some(x) && Walk(SetUp(ram), BOOT_DIR, 0xc000_0000 + x) == Some(x)
  {
    forall x: Word | x < 0x10_0000
      ensures Walk(SetUp(ram), BOOT_DIR, x) == Some(x) && Walk(SetUp(ram), BOOT_DIR, 0xc000_0000 + x) == Some(x)
    {
      LowAddress(ram, x);
    }
  }

  lemma LowAddress(ram: Memory, x: Word)
    requires x < 0x10_0000
    ensures Walk(SetUp(ram), BOOT_DIR, x) == Some(x) && Walk(SetUp(ram), BOOT_DIR, 0xc000_0000 + x) == Some(x)
  {
    var m := SetUp(ram);
    assert m[BOOT_DIR] == BootDirPage() && m[0x101] == FirstTable(ram[0x101]);
    assert m[BOOT_DIR][0] == EntryFor(0x101) && m[BOOT_DIR][KERNEL_DI] == EntryFor(0x101);
    assert m[0x101][x / PAGE_SIZE] == EntryFor(x / PAGE_SIZE);
  }
}
