/** How many frames `malloc_page` (v1-src/kernel/memory.c:437-453) needs: its loop gets through exactly
    when the pools have one frame for each page and one for each page table that is missing. */
module Frames {
  import opened Common
  import opened Paging
  import opened Vm
  import opened Allocation
  import Bitmaps
  import Malloc

  /** The clear bits of a pool. */
  function FreeCount(pool: seq<bool>): nat {
    if pool == [] then 0 else FreeCount(pool[1..]) + if pool[0] then 0 else 1
  }

  lemma {:induction false} FullHasNone(pool: seq<bool>)
    ensures FreeCount(pool) == 0 <==> IsFull(pool)
  {
    if pool != [] {
      FullHasNone(pool[1..]);
      assert forall k :: 0 < k < |pool| ==> pool[k] == pool[1..][k - 1];
      assert IsFull(pool) ==> forall k :: 0 <= k < |pool[1..]| ==> pool[1..][k] == pool[k + 1];
    }
  }

  lemma {:induction false} TakenIsLess(pool: seq<bool>, i: int)
    requires 0 <= i < |pool| && !pool[i]
    ensures FreeCount(pool[i := true]) == FreeCount(pool) - 1
  {
    if i > 0 {
      TakenIsLess(pool[1..], i - 1);
      assert pool[i := true][1..] == pool[1..][i - 1 := true];
    } else {
      assert pool[i := true][1..] == pool[1..];
    }
  }

  /** The directory slots from lo to below hi that have no table. */
  function SlotsMissing(dir: Page, lo: int, hi: int): nat
    decreases hi - lo
  {
    if lo >= hi then 0
    else SlotsMissing(dir, lo + 1, hi) + if 0 <= lo < ENTRIES && !Present(dir[lo]) then 1 else 0
  }

  /** The page tables that the pages from vp on still need. */
  function TablesMissing(s: State, dir: Frame, vp: int, n: nat): nat {
    if n == 0 then 0 else SlotsMissing(s.mem[dir], vp / ENTRIES, (vp + n - 1) / ENTRIES + 1)
  }

  /** The pools have a frame for every page, and the kernel pool one for every missing table. */
  predicate Enough(s: State, dir: Frame, pf: PoolFlag, vp: int, n: nat) {
    && n <= FreeCount(PoolOf(s, pf))
    && (pf == PF_USER ==> TablesMissing(s, dir, vp, n) <= FreeCount(s.kernelPool))
  }

  lemma {:induction false} SlotsAlike(dir: Page, dir': Page, lo: int, hi: int)
    requires forall i :: lo <= i < hi && 0 <= i < ENTRIES ==> dir'[i] == dir[i]
    ensures SlotsMissing(dir', lo, hi) == SlotsMissing(dir, lo, hi)
    decreases hi - lo
  {
    if lo < hi {
      SlotsAlike(dir, dir', lo + 1, hi);
    }
  }

  /** With the table of vp there, the rest of the run needs one less if it was missing. */
  lemma OneTableLess(s: State, t: State, dir: Frame, vp: int, n: nat)
    requires n > 0 && 0 <= vp && vp + n <= KERNEL_BASE && Present(t.mem[dir][vp / ENTRIES])
    requires forall i: Index :: i != vp / ENTRIES ==> t.mem[dir][i] == s.mem[dir][i]
    ensures TablesMissing(s, dir, vp, n)
            == TablesMissing(t, dir, vp + 1, n - 1) + if NeedsTable(s, dir, vp) then 1 else 0
  {
    hide Present;
    var lo, hi := vp / ENTRIES, (vp + n - 1) / ENTRIES + 1;
    SlotsAlike(s.mem[dir], t.mem[dir], lo + 1, hi);
    if n > 1 {
      assert (vp + 1) / ENTRIES == lo || (vp + 1) / ENTRIES == lo + 1;
      assert SlotsMissing(t.mem[dir], lo, hi) == SlotsMissing(t.mem[dir], lo + 1, hi);
    }
  }

  /** The frame of one round comes out of one pool. */
  lemma TakeCounts(s: State, pf: PoolFlag)
    requires !IsFull(PoolOf(s, pf))
    requires Inv(s)
    ensures 0 <= FirstFree(s, pf) < FRAMES
    ensures var t := Take(s, FirstFree(s, pf));
            && FreeCount(PoolOf(t, pf)) == FreeCount(PoolOf(s, pf)) - 1
            && (pf == PF_USER ==> t.kernelPool == s.kernelPool) && (pf == PF_KERNEL ==> t.userPool == s.userPool)
            && t.mem == s.mem && t.userBits == s.userBits && Inv(t)
  {
    FirstFreeIsFree(s, pf);
    SizesOf(s);
    TakeKeepsInv(s, FirstFree(s, pf));
    hide Inv;
    TakenIsLess(PoolOf(s, pf), Bitmaps.FirstFit(PoolOf(s, pf), 1));
  }

  /** What a round that gets through leaves in the pools and in the directory. */
  ghost predicate RoundCounts(s: State, t: State, dir: Frame, pf: PoolFlag, vp: int) {
    && FreeCount(PoolOf(t, pf)) == FreeCount(PoolOf(s, pf)) - 1
    && (pf == PF_USER ==>
        && 0 <= vp < KERNEL_BASE
        && FreeCount(t.kernelPool) == FreeCount(s.kernelPool) - (if NeedsTable(s, dir, vp) then 1 else 0)
        && Present(t.mem[dir][vp / ENTRIES])
        && forall i: Index :: i != vp / ENTRIES ==> t.mem[dir][i] == s.mem[dir][i])
  }

  /** The first page of a run that is still to be mapped. */
  ghost predicate IsNext(s: State, dir: Frame, pf: PoolFlag, vp: int) { IsPendingRun(s, dir, pf, vp, 1) }

  /** One round gets through exactly when there is a frame, and another one for a missing table. */
  lemma RoundIff(s: State, dir: Frame, pf: PoolFlag, vp: int)
    requires IsNext(s, dir, pf, vp)
    requires Inv(s)
    ensures OneMapped(s, dir, pf, vp).Done? <==>
              && FreeCount(PoolOf(s, pf)) > 0
              && (pf == PF_USER && NeedsTable(s, dir, vp) ==> FreeCount(s.kernelPool) > 0)
    ensures OneMapped(s, dir, pf, vp).Done? || OneMapped(s, dir, pf, vp).Halt?
  {
    hide Inv, Present, IsFull, FreeCount;
    FullHasNone(PoolOf(s, pf));
    FullHasNone(s.kernelPool);
    if !IsFull(PoolOf(s, pf)) {
      TakeCounts(s, pf);
    }
  }

  /** Getting a missing table takes one frame of the kernel pool and fills one slot. */
  lemma TableCounts(s: State, dir: Frame, vp: int)
    requires 0 <= vp < KERNEL_BASE && dir in s.userBits && (NeedsTable(s, dir, vp) ==> !IsFull(s.kernelPool))
    requires Inv(s)
    ensures var t := WithTable(s, dir, vp);
            && FreeCount(t.kernelPool) == FreeCount(s.kernelPool) - (if NeedsTable(s, dir, vp) then 1 else 0)
            && t.userPool == s.userPool && Present(t.mem[dir][vp / ENTRIES])
            && forall i: Index :: i != vp / ENTRIES ==> t.mem[dir][i] == s.mem[dir][i]
  {
    hide Inv, IsFull, FreeCount;
    WithTableKeepsInv(s, dir, vp);
    if NeedsTable(s, dir, vp) {
      TakeCounts(s, PF_KERNEL);
      FirstFreeIsFree(s, PF_KERNEL);
      TakenIsNoDir(s, FirstFree(s, PF_KERNEL));
    }
  }

  /** Entering the page leaves the pools and the directory alone. */
  lemma SameDir(s: State, ready: State, t: State, dir: Frame, pf: PoolFlag, vp: int, f: Frame)
    requires IsDir(s, dir) && RoundFacts(s, dir, pf, vp, f, ready, t)
    ensures t.kernelPool == ready.kernelPool && t.userPool == ready.userPool && t.mem[dir] == ready.mem[dir]
    ensures OneMapped(s, dir, pf, vp) == Done(t) && f == FirstFree(s, pf) && ready == WithTable(Take(s, f), dir, vp)
    ensures vp >= KERNEL_BASE ==> ready == Take(s, f)
  {
    hide Present, KEntry, UEntry, WithTable, SameEntries, DataKept, OwnGrows;
  }

  lemma RoundDoes(s: State, dir: Frame, pf: PoolFlag, vp: int) returns (t: State)
    requires IsNext(s, dir, pf, vp) && OneMapped(s, dir, pf, vp).Done?
    requires Inv(s)
    ensures OneMapped(s, dir, pf, vp) == Done(t) && Inv(t) && RoundCounts(s, t, dir, pf, vp)
    ensures MapsExactly(s, t, SpaceOf(dir, vp), vp, 1)
  {
    hide Inv, Present, IsFull, FreeCount, MapsExactly, KEntry, UEntry, OnlyEntry, SameEntries, DataKept;
    hide OneMapped, WithTable, FrameOf, RoundFacts;
    SizesOf(s);
    assert CanMapOne(s, dir, pf, vp);
    var f, ready, t0 := RoundKeepsInv(s, dir, pf, vp);
    RoundIsExact(s, dir, pf, vp, f, ready, t0);
    t := t0;
    SameDir(s, ready, t, dir, pf, vp, f);
    RoundCases(s, dir, pf, vp);
    TakeCounts(s, pf);
    if pf == PF_USER {
      TableCounts(Take(s, f), dir, vp);
    }
  }

  /** The counts before a round that gets through, from those after it. */
  lemma EnoughNext(s: State, t: State, dir: Frame, pf: PoolFlag, vp: int, n: nat)
    requires n > 0 && IsPendingRun(s, dir, pf, vp, n) && RoundCounts(s, t, dir, pf, vp)
    ensures Enough(s, dir, pf, vp, n) <==> Enough(t, dir, pf, vp + 1, n - 1)
  {
    hide FreeCount, TablesMissing, Present, NeedsTable;
    if pf == PF_USER {
      OneTableLess(s, t, dir, vp, n);
    }
  }

  /** A run whose first page does not get through has not got enough. */
  lemma EnoughForOne(s: State, dir: Frame, pf: PoolFlag, vp: int, n: nat)
    requires n > 0 && IsPendingRun(s, dir, pf, vp, n) && Enough(s, dir, pf, vp, n)
    ensures FreeCount(PoolOf(s, pf)) > 0 && (pf == PF_USER && NeedsTable(s, dir, vp) ==> FreeCount(s.kernelPool) > 0)
  {
    hide FreeCount, Present;
    if pf == PF_USER && NeedsTable(s, dir, vp) {
      assert SlotsMissing(s.mem[dir], vp / ENTRIES, (vp + n - 1) / ENTRIES + 1) > 0;
    }
  }

  lemma NothingNeeded(s: State, dir: Frame, pf: PoolFlag, vp: int)
    ensures Enough(s, dir, pf, vp, 0)
  {
  }

  /** The loop of `malloc_page` gets through exactly when the pools have enough frames. */
  lemma {:induction false} MapRunIff(s: State, dir: Frame, pf: PoolFlag, vp: int, n: nat)
    requires IsPendingRun(s, dir, pf, vp, n)
    requires Inv(s)
    ensures MapRun(s, dir, pf, vp, n).Done? <==> Enough(s, dir, pf, vp, n)
    ensures !MapRun(s, dir, pf, vp, n).Null?
    decreases n
  {
    hide Inv, OneMapped, Enough, FreeCount, Present, NeedsTable, MapsExactly;
    if n == 0 {
      NothingNeeded(s, dir, pf, vp);
      return;
    }
    assert IsNext(s, dir, pf, vp);
    RoundIff(s, dir, pf, vp);
    if Enough(s, dir, pf, vp, n) {
      EnoughForOne(s, dir, pf, vp, n);
    }
    if OneMapped(s, dir, pf, vp).Done? {
      var t := RoundDoes(s, dir, pf, vp);
      SizesOf(s);
      NextRun(s, t, dir, pf, vp, n);
      EnoughNext(s, t, dir, pf, vp, n);
      MapRunIff(t, dir, pf, vp + 1, n - 1);
    }
  }

  // ---------- the heap above ----------

  /** What `malloc_page` finds beside the heap's own pages: `frames` is true exactly when the pools
      have enough for the first run of n free pages. */
  ghost function AroundOf(s: State, dir: Frame, kernel: bool, n: nat, guard: bool): Malloc.Around {
    var pf := if kernel then PF_KERNEL else PF_USER;
    Malloc.Around(guard, Enough(s, dir, pf, FirstRun(s, PoolSpace(dir, pf), n), n))
  }

  /** The `malloc_page` of the heap answers like the one on page tables and pools: it stops, finds
      nothing, or returns the same address in the same cases, and sets the same bits. */
  lemma HeapAnswersAlike(s: State, dir: Frame, kernel: bool, n: nat, guard: bool)
    requires 0 < n < MAX_PAGES && IsDir(s, dir) && (!kernel ==> dir in s.userBits)
    requires Settled(s) && Inv(s)
    ensures var pf := if kernel then PF_KERNEL else PF_USER;
            var d := PoolSpace(dir, pf);
            var bits, r := BitsOf(s, d), MallocPage(s, dir, pf, n);
            var stops := Malloc.Stops(kernel, Malloc.StartOf(kernel), bits, n, AroundOf(s, dir, kernel, n, guard));
            && (r.Halt? <==> stops) && (r.Null? <==> !stops && !Malloc.HasRun(bits, n))
            && (r.Done? ==>
                && FirstRun(s, d, n) * PAGE_SIZE == Malloc.StartOf(kernel) + PAGE_SIZE * Bitmaps.FirstFit(bits, n)
                && BitsOf(r.value, d) == SetRange(bits, Bitmaps.FirstFit(bits, n), n, true))
  {
    hide Inv, Settled, MapRun, Enough, IsFull, MapsExactly;
    var pf := if kernel then PF_KERNEL else PF_USER;
    var d := PoolSpace(dir, pf);
    var bits := BitsOf(s, d);
    Malloc.FitIffRun(bits, n);
    BootIsNoUserDir(s);
    if !IsFull(bits) && Malloc.HasRun(bits, n) {
      FirstRunIsRange(s, d, n);
      var first := FirstRun(s, d, n);
      var t := Reserve(s, d, first, n);
      ReserveKeepsInv(s, d, first, n);
      SizesOf(s);
      if !(pf == PF_USER && first >= KERNEL_BASE - 1) {
        assert IsPendingRun(t, dir, pf, first, n);
        MapRunIff(t, dir, pf, first, n);
        SameEnough(s, t, dir, pf, first, n);
        if MapRun(t, dir, pf, first, n).Done? {
          var u := MallocPageMapsItsRun(s, dir, pf, n);
          MapsExactlyKeepsBits(t, u, d, first, n);
        }
      }
    }
  }

  lemma SameEnough(s: State, t: State, dir: Frame, pf: PoolFlag, vp: int, n: nat)
    requires t.kernelPool == s.kernelPool && t.userPool == s.userPool && t.mem == s.mem
    ensures Enough(t, dir, pf, vp, n) <==> Enough(s, dir, pf, vp, n)
  {
  }
}
