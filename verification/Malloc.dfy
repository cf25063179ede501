/** `sys_malloc` and `sys_free` (v1-src/kernel/memory.c:61-142, v1-src/kernel/memory.c:225-265) on
    memory words, over the list operations of List.dfy and a first-fit page bitmap. */
module Malloc {
  import opened Common
  import opened Lists
  import opened Arena
  import opened ArenaSteps
  import opened ArenaPages
  import Allocation
  import Bitmaps
  import Boot

  const K_HEAP_START := 0xc010_0000
  const USER_VADDR_START := 0x804_8000
  // `vaddr_get` asserts that a run of user pages starts below the last page under the kernel.
  const LAST_USER_PAGE := 0xbfff_f000

  /** The words of [a, a + n) are 0. */
  ghost predicate Zeroed(m: Words, a: int, n: int) {
    forall x :: a <= x < a + n ==> Peek(m, x) == 0
  }

  /** The pages of others are the same and have the same words. */
  ghost predicate ForeignKept(h: Heap, h': Heap) {
    && h'.foreign == h.foreign && h'.start == h.start
    && forall x :: (x - h.start) / PAGE in h.foreign ==> Peek(h'.words, x) == Peek(h.words, x)
  }

  /** The other live pointers keep their requests, their room and their bytes, and others their pages. */
  ghost predicate OthersIntact(h: Heap, h': Heap, ps: set<int>) {
    && ForeignKept(h, h')
    && forall q :: q in h.live && q !in ps ==> Kept(h, h', q)
  }

  /** A small block was freed: it is the last of its class's free list, or its arena had no other block in
      use, and then all the arena's blocks are off the list and its page is free. No other list and no
      other page has changed. */
  ghost predicate BlockFreed(h: Heap, h': Heap, p: int) {
    var a := PageOf(p);
    && a in h.small && 0 <= h.small[a] < DESC_CNT == |h.free| == |h'.free| && 0 <= Idx(h, a) < |h.bits|
    && var di := h.small[a];
       && (forall d :: 0 <= d < DESC_CNT && d != di ==> h'.free[d] == h.free[d]) && h'.large == h.large
       && (a in h'.small ==> h'.small == h.small && h'.bits == h.bits && h'.free[di] == h.free[di] + [p])
       && (a !in h'.small ==>
             && h'.small == h.small - {a} && h'.bits == h.bits[Idx(h, a) := false]
             && (forall k :: 0 <= k < Per(di) && Block(a, di, k) != p ==> Block(a, di, k) in h.free[di])
             && (forall x :: x in h'.free[di] <==> x in h.free[di] && PageOf(x) != a))
  }

  /** A large arena was freed: its pages are free, and nothing else has changed. */
  ghost predicate PagesFreed(h: Heap, h': Heap, p: int) {
    var a := PageOf(p);
    && a in h.large && 0 <= Idx(h, a) && 0 <= h.large[a] && Idx(h, a) + h.large[a] <= |h.bits|
    && h'.free == h.free && h'.small == h.small && h'.large == h.large - {a}
    && h'.bits == SetRange(h.bits, Idx(h, a), h.large[a], false)
  }

  /** All live pointers keep their requests, their room and their bytes. */
  ghost predicate AllKept(h: Heap, h': Heap) { h'.live == h.live && forall q :: q in h.live ==> Kept(h, h', q) }

  /** What stays out of the pages of others. */
  lemma ZonesKeepForeign(h: Heap, h': Heap, zones: set<Zone>, full: set<int>)
    requires KeptOutside(h, h'.words, zones)
             && (forall i :: Foreign(i) !in zones) && h'.foreign == h.foreign && h'.start == h.start
    requires Inv(h, full)
    ensures ForeignKept(h, h')
  {
    hide Inv, Peek, ZoneOf;
    forall x | (x - h.start) / PAGE in h.foreign ensures Peek(h'.words, x) == Peek(h.words, x) {
      ForeignZone(h, x, full);
    }
  }

  lemma OthersChain(h: Heap, h1: Heap, h2: Heap, ps: set<int>, qs: set<int>, rs: set<int>)
    requires OthersIntact(h, h1, ps) && OthersIntact(h1, h2, qs) && ps <= rs && qs <= rs
    ensures OthersIntact(h, h2, rs)
  {
    hide Cap, Peek;
  }

  // ---------- one block ----------

  /** Writes to an arena's header and to a block that is not on the list leave the list. */
  lemma ScrubKeepsList(h: Heap, m: Words, m': Words, di: int, p: int, ys: seq<Elem>, full: set<int>)
    requires Shape(h) && IsArenaBlock(h, di, p) && IsList(m, ListAddr(h, di), ys)
    requires forall y :: y in ys ==> IsArenaBlock(h, di, y)
    requires forall x :: Peek(m', x) != Peek(m, x) ==>
             ZoneOf(h, x) == Header(PageOf(p)) || (ZoneOf(h, x) == InBlock(p) && p !in ys)
    requires Inv(h, full)
    ensures IsList(m', ListAddr(h, di), ys)
  {
    hide Inv, ZoneOf, Peek, PageOf, Size, Per;
    var nodes := Nodes(ListAddr(h, di), ys);
    forall j | 0 <= j < |ys| + 2
      ensures Peek(m', nodes[j]) == Peek(m, nodes[j]) && Peek(m', nodes[j] + 4) == Peek(m, nodes[j] + 4)
    {
      if j == 0 || j == |ys| + 1 {
        DescZone(h, di, nodes[j]);
        DescZone(h, di, nodes[j] + 4);
      } else {
        assert nodes[j] == ys[j - 1] && ys[j - 1] in ys;
        SizeAtLeast16(di);
        BlockZone(h, di, nodes[j], nodes[j], full);
        BlockZone(h, di, nodes[j], nodes[j] + 4, full);
      }
    }
    UntouchedList(m, m', ListAddr(h, di), ys);
  }

  lemma MoreElems(m: Words, m': Words, nodes: seq<int>, p: int)
    requires OnlyElems(m, m', nodes)
    ensures OnlyElems(m, m', nodes + [p])
  {
    forall a | forall i :: 0 <= i < |nodes + [p]| ==> a != (nodes + [p])[i] && a != (nodes + [p])[i] + 4
      ensures Peek(m', a) == Peek(m, a)
    {
      forall i | 0 <= i < |nodes| ensures a != nodes[i] && a != nodes[i] + 4 {
        assert nodes[i] == (nodes + [p])[i];
      }
    }
  }

  /** After the list operation (m1), the counter of the arena and a block that left the list may
      be written (m2). */
  ghost predicate Scrubbed(m1: Words, m2: Words, di: int, p: int, ys: seq<Elem>) {
    && (forall x :: Peek(m2, x) != Peek(m1, x) ==> x == PageOf(p) + 4 || (p <= x < p + Size(di) && p !in ys))
    && Peek(m2, PageOf(p) + 4) == Peek(m1, PageOf(p) + 4) + Delta(ys, p)
  }

  lemma MovesBlock(h: Heap, m1: Words, m2: Words, di: int, p: int, ys: seq<Elem>, full: set<int>)
    requires Shape(h) && IsArenaBlock(h, di, p)
    requires OnlyElems(h.words, m1, Nodes(ListAddr(h, di), h.free[di]) + [p]) && IsList(m1, ListAddr(h, di), ys)
    requires Scrubbed(m1, m2, di, p, ys) && forall y :: y in ys ==> y in h.free[di] || y == p
    requires Inv(h, full)
    ensures 0 <= di < DESC_CNT
    ensures BlockMoved(h, m2, di, p, ys)
  {
    hide Inv, ZoneOf, Peek, PageOf, Size, Per, IsList, OnlyElems, IsArenaBlock, IsBlockAt;
    ArenaBlockDi(h, di, p);
    var a := PageOf(p);
    ArenaFacts(h, a, full);
    LinksStayInZones(h, m1, di, p, full);
    HeaderKept(h, m1, ListZones(h, di, p), a, full);
    forall x | Peek(m2, x) != Peek(m1, x)
      ensures ZoneOf(h, x) == Header(a) || (ZoneOf(h, x) == InBlock(p) && p !in ys)
    {
      if x == a + 4 {
        HeaderZone(h, a, x, full);
      } else {
        BlockZone(h, di, p, x, full);
      }
    }
    FreeIsArenaBlock(h, di, full);
    ScrubKeepsList(h, m1, m2, di, p, ys, full);
    hide Scrubbed;
    ScrubbedHeader(m1, m2, di, p, ys, a);
  }

  lemma ScrubbedHeader(m1: Words, m2: Words, di: int, p: int, ys: seq<Elem>, a: int)
    requires Scrubbed(m1, m2, di, p, ys) && a == PageOf(p) && IsBlockAt(p, a, di)
    ensures Peek(m2, a) == Peek(m1, a) && Peek(m2, a + 8) == Peek(m1, a + 8)
            && Peek(m2, a + 4) == Peek(m1, a + 4) + Delta(ys, p)
  {
    hide Peek, Size, PageOf;
    BlockFacts(p, a, di);
  }

  /** The bytes of the other pointers after a block has moved. */
  lemma MoveLeavesOthers(h: Heap, m: Words, di: int, p: int, ys: seq<Elem>, live': map<int, int>, full: set<int>)
    requires Shape(h) && Moves(h, m, di, p, ys, live')
    requires Inv(h, full)
    ensures 0 <= di < DESC_CNT
    ensures OthersIntact(h, Moved(h, m, di, ys, live'), {p})
  {
    hide Inv, BlockMoved, IsArenaBlock, PageOf, Peek, Size, Toggled;
    ArenaBlockDi(h, di, p);
    MoveZones(h, m, di, p, ys);
    forall q | q in h.live && q != p
      ensures Cap(Moved(h, m, di, ys, live'), q) == Cap(h, q)
      ensures forall x :: q <= x < q + Cap(h, q) ==> Peek(m, x) == Peek(h.words, x)
    {
      LiveNotFree(h, q, di, full);
      LiveKept(h, m, ListZones(h, di, p) + {Header(PageOf(p))}, q, full);
    }
    ZonesKeepForeign(h, Moved(h, m, di, ys, live'), ListZones(h, di, p) + {Header(PageOf(p))}, full);
  }

  lemma MoveZones(h: Heap, m: Words, di: int, p: int, ys: seq<Elem>)
    requires Shape(h) && 0 <= di < DESC_CNT && BlockMoved(h, m, di, p, ys)
    ensures KeptOutside(h, m, ListZones(h, di, p) + {Header(PageOf(p))})
  {
  }

  lemma {:induction false} CountPositive(xs: seq<Elem>, a: int, di: int, n: nat, k: nat)
    requires k < n && Block(a, di, k) in xs
    ensures CountFree(xs, a, di, n) > 0
  {
    if k < n - 1 {
      CountPositive(xs, a, di, n - 1, k);
    }
  }

  /** Where a free block lies, and that its arena's counter is not 0. */
  lemma FreeBlockFacts(h: Heap, di: int, p: int, full: set<int>)
    requires Shape(h) && 0 <= di < DESC_CNT && p in h.free[di]
    requires Inv(h, full)
    ensures IsArenaBlock(h, di, p) && Peek(h.words, PageOf(p) + 4) > 0
    ensures 0 < PageOf(p) && PageOf(p) + HEADER <= p && p + Size(di) <= PageOf(p) + PAGE < MEMORY_SIZE
  {
    hide Inv, PageOf, Size, Peek, SmallBlocks;
    FreeIsArenaBlock(h, di, full);
    assert IsArenaBlock(h, di, p);
    var a := PageOf(p);
    ArenaFacts(h, a, full);
    BlockFacts(p, a, di);
    var k :| 0 <= k < Per(di) && p == Block(a, di, k);
    CountPositive(h.free[di], a, di, Per(di), k);
  }

  /** Memory m1 after the first block p has been popped off the list of di. */
  ghost predicate Popped(h: Heap, m1: Words, di: int, p: int)
    requires Shape(h) && 0 <= di < DESC_CNT
  {
    && h.free[di] != [] && p == h.free[di][0]
    && IsList(m1, ListAddr(h, di), h.free[di][1..]) && OnlyElems(h.words, m1, Nodes(ListAddr(h, di), h.free[di]))
  }

  lemma PoppedFacts(h: Heap, m1: Words, di: int, p: int, full: set<int>)
    requires Shape(h) && 0 <= di < DESC_CNT && Popped(h, m1, di, p)
    requires Inv(h, full)
    ensures Peek(m1, DescAddr(h, di)) == Size(di) && Peek(m1, PageOf(p) + 4) > 0
    ensures Toggled(h.free[di], h.free[di][1..], p)
  {
    hide Inv, PageOf, Size, Per, Peek, ZoneOf, IsArenaBlock, IsList, OnlyElems, KeptOutside;
    FreeBlockFacts(h, di, p, full);
    MoreElems(h.words, m1, Nodes(ListAddr(h, di), h.free[di]), p);
    LinksStayInZones(h, m1, di, p, full);
    DescKept(h, m1, ListZones(h, di, p), di, full);
    ArenaBlockDi(h, di, p);
    HeaderKept(h, m1, ListZones(h, di, p), PageOf(p), full);
    ListIsThere(h, di, full);
    ListDistinct(h.words, ListAddr(h, di), h.free[di]);
  }

  /** The popped block, zeroed, with the counter one lower. */
  lemma TakenMoves(h: Heap, m1: Words, m2: Words, di: int, p: int, size: int, full: set<int>)
    requires Shape(h) && 0 <= di < DESC_CNT && Popped(h, m1, di, p) && 0 < size <= Size(di)
    requires Scrubbed(m1, m2, di, p, h.free[di][1..])
    requires Inv(h, full)
    ensures Moves(h, m2, di, p, h.free[di][1..], h.live[p := size])
  {
    hide Inv, PageOf, Size, Per, Peek, ZoneOf, IsArenaBlock, IsList, OnlyElems, BlockMoved, Scrubbed;
    FreeBlockFacts(h, di, p, full);
    PoppedFacts(h, m1, di, p, full);
    MoreElems(h.words, m1, Nodes(ListAddr(h, di), h.free[di]), p);
    MovesBlock(h, m1, m2, di, p, h.free[di][1..], full);
    FreeNotLive(h, di, p, full);
  }

  lemma BlockCap(h: Heap, di: int, p: int, full: set<int>)
    requires IsArenaBlock(h, di, p)
    requires Inv(h, full)
    ensures Cap(h, p) == Size(di)
  {
    hide Inv, PageOf, Size;
    ArenaFacts(h, PageOf(p), full);
  }

  lemma SameCap(h: Heap, h': Heap, p: int)
    requires h'.small == h.small && h'.large == h.large
    ensures Cap(h', p) == Cap(h, p)
  {
  }

  lemma Peeked(m: Words, a: int)
    requires 0 <= a < MEMORY_SIZE
    ensures Peek(m, a) == m[a]
  {
  }

  /** `memset` to 0. */
  method MemSet(mem: Memory, a: int, n: int)
    requires 0 <= a && 0 <= n && a + n <= MEMORY_SIZE
    modifies mem
    ensures forall x :: Peek(mem.words, x) == if a <= x < a + n then 0 else Peek(old(mem.words), x)
  {
    var i := 0;
    while i < n
      invariant 0 <= i <= n
      invariant forall x :: Peek(mem.words, x) == if a <= x < a + i then 0 else Peek(old(mem.words), x)
    {
      mem.words := mem.words[a + i := 0];
      i := i + 1;
    }
  }

  /** `block2arena`: the low twelve bits are cleared. */
  method BlockToArena(b: int) returns (a: int)
    ensures a == PageOf(b)
  {
    a := b - b % PAGE;
  }

  lemma PokedWord(m: Words, m': Words, a: int)
    requires 0 <= a < MEMORY_SIZE && m' == m[a := m'[a]]
    ensures Peek(m', a) == m'[a] && forall x :: x != a ==> Peek(m', x) == Peek(m, x)
  {
  }

  /** What `block_desc_init` leaves in the descriptor at index di. */
  ghost predicate DescReady(m: Words, descs: int, di: int)
    requires 0 <= descs + 24 * di && descs + 24 * di + 24 < MEMORY_SIZE
  {
    Peek(m, descs + 24 * di) == Size(di) && Peek(m, descs + 24 * di + 4) == Per(di)
        && IsList(m, descs + 24 * di + 8, [])
  }

  /** A descriptor none of whose words change stays ready. */
  lemma DescStays(m: Words, m': Words, descs: int, di: int)
    requires 0 <= descs + 24 * di && descs + 24 * di + 24 < MEMORY_SIZE && DescReady(m, descs, di)
    requires forall x :: descs + 24 * di <= x < descs + 24 * di + 24 ==> Peek(m', x) == Peek(m, x)
    ensures DescReady(m', descs, di)
  {
    hide Peek, IsList;
    var list: Elem := descs + 24 * di + 8;
    assert Nodes(list, []) == [list, list + 8];
    UntouchedList(m, m', list, []);
  }

  lemma ListInitWrites(m: Words, list: Elem)
    ensures forall x :: !(list <= x < list + 16) ==> Peek(Initialized(m, list), x) == Peek(m, x)
  {
  }

  method BlockDescInit(mem: Memory, descs: int)
    requires 0 <= descs && descs + 24 * DESC_CNT < MEMORY_SIZE
    modifies mem
    ensures forall di :: 0 <= di < DESC_CNT ==> DescReady(mem.words, descs, di)
    ensures forall x :: !(descs <= x < descs + 24 * DESC_CNT) ==> Peek(mem.words, x) == Peek(old(mem.words), x)
  {
    hide DescReady, Peek, Initialized;
    var descIdx, blockSize := 0, 16;
    while descIdx < DESC_CNT
      invariant 0 <= descIdx <= DESC_CNT && blockSize == (if descIdx == DESC_CNT then 2048 else Size(descIdx))
      invariant forall di :: 0 <= di < descIdx ==> DescReady(mem.words, descs, di)
      invariant forall x :: !(descs <= x < descs + 24 * DESC_CNT) ==> Peek(mem.words, x) == Peek(old(mem.words), x)
    {
      ghost var m := mem.words;
      var desc := descs + 24 * descIdx;
      mem.words := mem.words[desc := blockSize];
      PokedWord(m, mem.words, desc);
      ghost var m1 := mem.words;
      mem.words := mem.words[desc + 4 := (PAGE - HEADER) / blockSize];
      PokedWord(m1, mem.words, desc + 4);
      ghost var m2 := mem.words;
      ListInitWrites(m2, desc + 8);
      mem.ListInit(desc + 8);
      DescMade(mem.words, descs, descIdx);
      forall di | 0 <= di < descIdx ensures DescReady(mem.words, descs, di) {
        DescStays(m, mem.words, descs, di);
      }
      blockSize := blockSize * 2;
      descIdx := descIdx + 1;
    }
  }

  lemma DescMade(m: Words, descs: int, di: int)
    requires 0 <= di < DESC_CNT && 0 <= descs && descs + 24 * DESC_CNT < MEMORY_SIZE
    requires Peek(m, descs + 24 * di) == Size(di) && Peek(m, descs + 24 * di + 4) == (PAGE - HEADER) / Size(di)
    requires IsList(m, descs + 24 * di + 8, [])
    ensures DescReady(m, descs, di)
  {
    DescTable(di);
  }

  /** The invariant holds of a heap with ready descriptors and nothing in it; whatever pages are taken
      are those of others. */
  lemma EmptyHeap(h: Heap)
    requires Shape(h) && h.small == map[] && h.large == map[] && h.owner == map[] && h.live == map[]
    requires forall di :: 0 <= di < DESC_CNT ==> h.free[di] == []
    requires forall i :: i in h.foreign <==> 0 <= i < |h.bits| && h.bits[i]
    requires forall di :: 0 <= di < DESC_CNT ==> DescReady(h.words, h.descs, di)
    ensures Inv(h, {})
  {
    hide IsList, Size, Per, Peek;
    forall di | 0 <= di < DESC_CNT
      ensures Peek(h.words, DescAddr(h, di)) == Size(di) && Peek(h.words, DescAddr(h, di) + 4) == Per(di)
              && IsList(h.words, ListAddr(h, di), h.free[di])
    {
      assert DescReady(h.words, h.descs, di);
    }
  }

  // ---------- a new arena ----------

  /** The loop of `sys_malloc` that appends the blocks of a new arena, after k of them. */
  ghost predicate Building(h: Heap, m: Words, di: int, a: int, ys: seq<Elem>)
    requires Shape(h) && 0 <= di < DESC_CNT
  {
    && KeptOutside(h, m, {Outside, Ends(di)}) && IsList(m, ListAddr(h, di), ys)
    && |ys| <= Per(di) && (forall j :: 0 <= j < |ys| ==> ys[j] == Block(a, di, j))
    && Peek(m, a) == DescAddr(h, di) && Peek(m, a + 4) == Per(di) && Peek(m, a + 8) == 0
  }

  /** A page of the heap is apart from the descriptors. */
  lemma PageBounds(h: Heap, a: int, n: int)
    requires Shape(h) && IsRun(h, a, n)
    ensures a % PAGE == 0 && 0 < a && h.start <= a && a + PAGE * n <= h.start + PAGE * |h.bits|
            && a + PAGE * n < MEMORY_SIZE - PAGE
    ensures a + PAGE * n <= h.descs || h.descs + 24 * DESC_CNT <= a
  {
  }

  lemma BuildingBegins(h: Heap, m: Words, di: int, a: int)
    requires Shape(h) && 0 <= di < DESC_CNT && IsRun(h, a, 1) && h.free[di] == []
    requires forall x :: !(a <= x < a + PAGE) ==> Peek(m, x) == Peek(h.words, x)
    requires Peek(m, a) == DescAddr(h, di) && Peek(m, a + 4) == Per(di) && Peek(m, a + 8) == 0
    requires Inv(h, {})
    ensures Building(h, m, di, a, [])
  {
    hide Inv, IsList, Peek, Per, Size, ZoneOf;
    forall x | ZoneOf(h, x) != Outside ensures Peek(m, x) == Peek(h.words, x) {
      if a <= x < a + PAGE {
        RunIsOutside(h, a, 1, x);
      }
    }
    ListIsThere(h, di, {});
    PageBounds(h, a, 1);
    assert Nodes(ListAddr(h, di), []) == [ListAddr(h, di), ListAddr(h, di) + 8];
    UntouchedList(h.words, m, ListAddr(h, di), []);
  }

  /** The next block is a new element, apart from the list. */
  lemma NextBlock(h: Heap, m: Words, di: int, a: int, ys: seq<Elem>)
    requires Shape(h) && 0 <= di < DESC_CNT && IsRun(h, a, 1) && Building(h, m, di, a, ys) && |ys| < Per(di)
    ensures var b := Block(a, di, |ys|);
            && 0 <= b < MEMORY_SIZE - 16 && b !in ys
            && ApartFrom(Nodes(ListAddr(h, di), ys), b)
  {
    hide KeptOutside, IsList, Peek, Per, Size, ZoneOf;
    var b, nodes := Block(a, di, |ys|), Nodes(ListAddr(h, di), ys);
    PageBounds(h, a, 1);
    BlockBounds(a, di, |ys|);
    SizeAtLeast16(di);
    forall j | 0 <= j < |ys| + 2 ensures Sep(nodes[j], b) {
      if 0 < j <= |ys| {
        assert nodes[j] == ys[j - 1];
        BlocksApart(a, di, j - 1, |ys|);
      }
    }
    forall j | 0 <= j < |ys| ensures ys[j] != b {
      BlocksApart(a, di, j, |ys|);
    }
  }

  lemma BuildingStep(h: Heap, m: Words, m': Words, di: int, a: int, ys: seq<Elem>, b: Elem)
    requires Shape(h) && 0 <= di < DESC_CNT && IsRun(h, a, 1) && Building(h, m, di, a, ys) && |ys| < Per(di)
             && b == Block(a, di, |ys|)
    requires IsList(m', ListAddr(h, di), ys + [b]) && OnlyElems(m, m', Nodes(ListAddr(h, di), ys) + [b])
    requires Inv(h, {})
    ensures Building(h, m', di, a, ys + [b])
  {
    hide Inv, IsList, Peek, Per, Size, ZoneOf, IsRun;
    forall x | (a <= x < a + HEADER) || ZoneOf(h, x) !in {Outside, Ends(di)} ensures Peek(m', x) == Peek(m, x) {
      forall j | 0 <= j < |ys| + 3 ensures var n := (Nodes(ListAddr(h, di), ys) + [b])[j]; x != n && x != n + 4 {
        BuildingNode(h, di, a, ys, b, j);
      }
    }
  }

  lemma BuildingNode(h: Heap, di: int, a: int, ys: seq<Elem>, b: Elem, j: nat)
    requires Shape(h) && 0 <= di < DESC_CNT && IsRun(h, a, 1) && |ys| < Per(di) && b == Block(a, di, |ys|)
    requires (forall j :: 0 <= j < |ys| ==> ys[j] == Block(a, di, j)) && j < |ys| + 3
    requires Inv(h, {})
    ensures var n := (Nodes(ListAddr(h, di), ys) + [b])[j];
            (forall x :: x == n || x == n + 4 ==> ZoneOf(h, x) in {Outside, Ends(di)} && !(a <= x < a + HEADER))
  {
    hide Inv, Peek, Per, Size, ZoneOf;
    PageBounds(h, a, 1);
    var nodes := Nodes(ListAddr(h, di), ys) + [b];
    var n := nodes[j];
    if j == 0 || j == |ys| + 1 {
      assert n == ListAddr(h, di) || n == ListAddr(h, di) + 8;
      DescZone(h, di, n);
      DescZone(h, di, n + 4);
    } else {
      var k := if j == |ys| + 2 then |ys| else j - 1;
      assert n == Block(a, di, k);
      BlockBounds(a, di, k);
      SizeAtLeast16(di);
      RunIsOutside(h, a, 1, n);
      RunIsOutside(h, a, 1, n + 4);
    }
  }

  /** What the loop reads through the arena's header. */
  ghost predicate HeaderWords(h: Heap, m: Words, di: int, a: int)
    requires Shape(h) && 0 <= di < DESC_CNT
  {
    && 0 < a < MEMORY_SIZE - PAGE && m[a] == DescAddr(h, di)
    && m[DescAddr(h, di)] == Size(di) && m[DescAddr(h, di) + 4] == Per(di)
  }

  lemma BuildingHeader(h: Heap, m: Words, di: int, a: int, ys: seq<Elem>)
    requires Shape(h) && 0 <= di < DESC_CNT && IsRun(h, a, 1) && Building(h, m, di, a, ys)
    requires Inv(h, {})
    ensures HeaderWords(h, m, di, a) && |ys| <= Per(di)
  {
    hide Inv, IsList, Per, Size, ZoneOf, KeptOutside;
    PageBounds(h, a, 1);
    DescKept(h, m, {Outside, Ends(di)}, di, {});
  }

  lemma BuildingList(h: Heap, m: Words, di: int, a: int, ys: seq<Elem>)
    requires Shape(h) && 0 <= di < DESC_CNT && Building(h, m, di, a, ys)
    ensures IsList(m, ListAddr(h, di), ys)
  {
  }

  lemma BuiltBlocks(h: Heap, m: Words, di: int, a: int, ys: seq<Elem>)
    requires Shape(h) && Built(h, m, di, a, ys)
    ensures forall x :: x in ys ==> PageOf(x) == a
  {
    hide IsList, Peek, KeptOutside, PageOf;
    forall x | x in ys ensures PageOf(x) == a {
      BlockFacts(x, a, di);
    }
  }

  /** A map that is not full has room for one page. */
  lemma OneBitFree(bits: seq<bool>)
    ensures Allocation.IsFull(bits) || HasRun(bits, 1)
  {
    if !Allocation.IsFull(bits) {
      var k :| 0 <= k < |bits| && !bits[k];
      assert Bitmaps.Clear(bits, k, 1);
    }
  }

  lemma BuildingEnds(h: Heap, m: Words, di: int, a: int, ys: seq<Elem>)
    requires Shape(h) && 0 <= di < DESC_CNT && IsRun(h, a, 1) && h.free[di] == [] && Building(h, m, di, a, ys)
             && |ys| == Per(di)
    ensures Built(h, m, di, a, ys) && ys != []
  {
    hide KeptOutside, IsList, Peek, Per, Size, ZoneOf, Shape, IsRun;
    PerPositive(di);
    forall x ensures x in ys <==> IsBlockAt(x, a, di) {
      if IsBlockAt(x, a, di) {
        var k :| 0 <= k < Per(di) && x == Block(a, di, k);
        assert ys[k] == x;
      }
    }
  }

  /** Pages that come leave the other pointers alone. */
  lemma BuiltLeavesOthers(h: Heap, m: Words, di: int, a: int, ys: seq<Elem>)
    requires Shape(h) && Built(h, m, di, a, ys)
    requires Inv(h, {})
    ensures 0 <= di < DESC_CNT && OthersIntact(h, SmallAdded(h, m, di, a, ys), {})
  {
    hide Inv, IsList, Peek, Per, Size, PageOf, IsBlockAt, KeptOutside;
    RunHasNoArena(h, a, 1);
    forall q | q in h.live
      ensures Cap(SmallAdded(h, m, di, a, ys), q) == Cap(h, q)
      ensures forall x :: q <= x < q + Cap(h, q) ==> Peek(m, x) == Peek(h.words, x)
    {
      LiveKept(h, m, {Outside, Ends(di)}, q, {});
    }
    ZonesKeepForeign(h, SmallAdded(h, m, di, a, ys), {Outside, Ends(di)}, {});
  }

  // ---------- a block given back ----------

  /** What `sys_free` reads for a live small block, and why it may be appended to the list. */
  lemma SmallLive(h: Heap, p: int) returns (di: int)
    requires p in h.live && PageOf(p) !in h.large
    requires Inv(h, {})
    ensures Shape(h) && 0 <= di < DESC_CNT && IsArenaBlock(h, di, p) && p !in h.free[di]
    ensures 0 <= p < MEMORY_SIZE - 16 && ApartFrom(Nodes(ListAddr(h, di), h.free[di]), p)
    ensures 0 < PageOf(p) < MEMORY_SIZE - PAGE && h.words[PageOf(p)] == DescAddr(h, di)
    ensures h.words[PageOf(p) + 8] == 0 && h.words[PageOf(p) + 4] < Per(di)
  {
    hide Inv, PageOf, IsBlockAt, Per, Size;
    LiveFacts(h, p, {});
    di := h.small[PageOf(p)];
    ArenaFacts(h, PageOf(p), {});
    BlockFacts(p, PageOf(p), di);
    LiveNotFree(h, p, di, {});
    SizeAtLeast16(di);
    forall j | 0 <= j < |h.free[di]| + 2 ensures Sep(Nodes(ListAddr(h, di), h.free[di])[j], p) {
      BlockApart(h, di, p, j);
    }
  }

  lemma BlockApart(h: Heap, di: int, p: int, j: nat)
    requires Shape(h) && 0 <= di < DESC_CNT && IsArenaBlock(h, di, p) && p !in h.free[di] && j < |h.free[di]| + 2
    requires Inv(h, {})
    ensures Sep(Nodes(ListAddr(h, di), h.free[di])[j], p)
  {
    hide Inv, PageOf, IsBlockAt, Per, Size, SmallOk, LargeOk;
    var xs := h.free[di];
    ArenaFacts(h, PageOf(p), {});
    BlockFacts(p, PageOf(p), di);
    SizeAtLeast16(di);
    if 0 < j <= |xs| {
      var x := xs[j - 1];
      assert Nodes(ListAddr(h, di), xs)[j] == x && x in xs;
      FreeIsArenaBlock(h, di, {});
      assert IsArenaBlock(h, di, x);
      ArenaFacts(h, PageOf(x), {});
      BlockFacts(x, PageOf(x), di);
      if PageOf(x) == PageOf(p) {
        TwoBlocks(x, p, PageOf(p), di);
      } else {
        PagesApart(PageOf(x), PageOf(p));
      }
    } else {
      assert Nodes(ListAddr(h, di), xs)[j] == ListAddr(h, di) || Nodes(ListAddr(h, di), xs)[j] == ListAddr(h, di) + 8;
    }
  }

  /** The appended block with the counter one higher. */
  lemma GivenMoves(h: Heap, m1: Words, m2: Words, di: int, p: int)
    requires Shape(h) && IsArenaBlock(h, di, p) && p in h.live
    requires 0 <= di < DESC_CNT && p !in h.free[di] && 0 <= p < MEMORY_SIZE - 16
    requires OnlyElems(h.words, m1, Nodes(ListAddr(h, di), h.free[di]) + [p])
             && IsList(m1, ListAddr(h, di), h.free[di] + [p])
    requires Scrubbed(m1, m2, di, p, h.free[di] + [p])
    requires Inv(h, {})
    ensures Moves(h, m2, di, p, h.free[di] + [p], h.live - {p})
  {
    hide Inv, PageOf, Size, Per, Peek, ZoneOf, IsArenaBlock, IsList, OnlyElems, BlockMoved, Scrubbed;
    MovesBlock(h, m1, m2, di, p, h.free[di] + [p], {});
  }

  /** An arena whose counter is below the number of its blocks is not full of free blocks. */
  lemma NotFull(h: Heap, a: int)
    requires a in h.small && Peek(h.words, a + 4) < Per(h.small[a])
    requires Inv(h, {a})
    ensures Inv(h, {})
  {
    hide Inv, FreeOk, LiveOk, OwnerOk, DescsOk, LargeOk, PageOf, Size, Per, Peek, IsBlockAt;
    InvParts(h, {a});
    forall c | c in h.small ensures SmallOk(h, c, {}) {
      ArenaFacts(h, c, {a});
    }
    forall c | c in h.large ensures LargeOk(h, c) {
      ArenaFacts(h, c, {a});
    }
    MakeInv(h, {});
  }

  // ---------- an arena taken apart ----------

  /** x is one of the first k blocks of the arena. */
  predicate AmongFirst(x: int, a: int, di: int, k: int) {
    exists j :: 0 <= j < k && x == Block(a, di, j)
  }

  /** The loop of `sys_free` that takes the blocks of arena a off the list, after k of them. */
  ghost predicate Collapsing(h: Heap, m: Words, di: int, a: int, cur: seq<Elem>, k: int)
    requires Shape(h) && 0 <= di < DESC_CNT
  {
    && KeptOutside(h, m, ListZones(h, di, Block(a, di, 0))) && IsList(m, ListAddr(h, di), cur)
    && (forall x :: x in cur <==> x in h.free[di] && !AmongFirst(x, a, di, k))
  }

  lemma ArenaIsFree(h: Heap, a: int, full: set<int>)
    requires a in h.small && Peek(h.words, a + 4) == Per(h.small[a])
    requires Inv(h, full)
    ensures Shape(h) && 0 <= h.small[a] < DESC_CNT
    ensures forall k :: 0 <= k < Per(h.small[a]) ==> Block(a, h.small[a], k) in h.free[h.small[a]]
  {
    hide Inv, PageOf, Size, Peek;
    ArenaFacts(h, a, full);
    PerPositive(h.small[a]);
    CountBounds(h.free[h.small[a]], a, h.small[a], Per(h.small[a]));
  }

  lemma CollapseBegins(h: Heap, di: int, a: int)
    requires Shape(h) && 0 <= di < DESC_CNT
    requires Inv(h, {a})
    ensures Collapsing(h, h.words, di, a, h.free[di], 0)
  {
    hide Inv, Peek, IsList, ZoneOf, ListZones;
    ListIsThere(h, di, {a});
  }

  lemma NextIsListed(h: Heap, m: Words, di: int, a: int, cur: seq<Elem>, k: int) returns (i: nat)
    requires Shape(h) && 0 <= di < DESC_CNT && 0 <= k < Per(di) && Block(a, di, k) in h.free[di]
    requires Collapsing(h, m, di, a, cur, k)
    ensures IsList(m, ListAddr(h, di), cur) && i < |cur| && cur[i] == Block(a, di, k)
  {
    hide Peek, IsList, ZoneOf, ListZones, KeptOutside, Per, Size, Block;
    var b := Block(a, di, k);
    if AmongFirst(b, a, di, k) {
      var j :| 0 <= j < k && b == Block(a, di, j);
      BlockInjective(a, di, j, k);
    }
    assert b in cur;
    i :| i < |cur| && cur[i] == b;
  }

  lemma CollapseStep(h: Heap, m: Words, m': Words, di: int, a: int, cur: seq<Elem>, k: int, i: nat)
    requires Shape(h) && 0 <= di < DESC_CNT && 0 <= k < Per(di) && Collapsing(h, m, di, a, cur, k)
    requires i < |cur| && cur[i] == Block(a, di, k) && IsArenaBlock(h, di, Block(a, di, 0))
    requires IsList(m', ListAddr(h, di), Without(cur, i)) && OnlyElems(m, m', Nodes(ListAddr(h, di), cur))
    requires Inv(h, {a})
    ensures Collapsing(h, m', di, a, Without(cur, i), k + 1)
  {
    hide Inv, Peek, IsList, ZoneOf, ListZones, Per, Size, Block, IsArenaBlock;
    var zones := ListZones(h, di, Block(a, di, 0));
    var nodes := Nodes(ListAddr(h, di), cur);
    forall x | ZoneOf(h, x) !in zones ensures Peek(m', x) == Peek(m, x) {
      forall j | 0 <= j < |nodes| ensures x != nodes[j] && x != nodes[j] + 4 {
        EndsZone(h, di, Block(a, di, 0));
        if 0 < j <= |cur| {
          assert nodes[j] == cur[j - 1];
          BlockNodeZone(h, di, Block(a, di, 0), nodes[j], {a});
        }
      }
    }
    WithoutMembers(m, ListAddr(h, di), cur, i) by { hide KeptOutside; }
    FirstOneMore(a, di, k);
  }

  lemma WithoutMembers(m: Words, list: Elem, cur: seq<Elem>, i: nat)
    requires IsList(m, list, cur) && i < |cur|
    ensures forall x :: x in Without(cur, i) <==> x in cur && x != cur[i]
  {
    ListDistinct(m, list, cur);
    hide IsList;
    var w := Without(cur, i);
    forall x | x in cur && x != cur[i] ensures x in w {
      var j :| 0 <= j < |cur| && cur[j] == x;
      assert w[if j < i then j else j - 1] == x;
    }
    forall x | x in w ensures x in cur && x != cur[i] {
      var j :| 0 <= j < |w| && w[j] == x;
      assert x == cur[if j < i then j else j + 1];
    }
  }

  lemma FirstOneMore(a: int, di: int, k: int)
    requires 0 <= k
    ensures forall x :: AmongFirst(x, a, di, k + 1) <==> AmongFirst(x, a, di, k) || x == Block(a, di, k)
  {
    hide Block;
    forall x ensures AmongFirst(x, a, di, k + 1) <==> AmongFirst(x, a, di, k) || x == Block(a, di, k) {
      if AmongFirst(x, a, di, k + 1) {
        var j :| 0 <= j < k + 1 && x == Block(a, di, j);
        assert j < k || x == Block(a, di, k);
      }
      if x == Block(a, di, k) { assert AmongFirst(x, a, di, k + 1); }
    }
  }

  lemma CollapseEnds(h: Heap, m: Words, di: int, a: int, ys: seq<Elem>)
    requires Shape(h) && 0 <= di < DESC_CNT && a in h.small && h.small[a] == di && Collapsing(h, m, di, a, ys, Per(di))
    requires forall k :: 0 <= k < Per(di) ==> Block(a, di, k) in h.free[di]
    requires Inv(h, {a})
    ensures Emptied(h, m, di, a, ys)
  {
    hide Inv, Peek, IsList, ZoneOf, ListZones, Per, Size, PageOf, KeptOutside, Block;
    ArenaFacts(h, a, {a});
    FreeIsArenaBlock(h, di, {a});
    forall x | x in h.free[di] ensures PageOf(x) == a <==> AmongFirst(x, a, di, Per(di)) {
      assert IsArenaBlock(h, di, x);
      if AmongFirst(x, a, di, Per(di)) {
        assert IsBlockAt(x, a, di);
        BlockFacts(x, a, di);
      }
    }
  }

  lemma CollapseLeavesOthers(h: Heap, m: Words, di: int, a: int, ys: seq<Elem>)
    requires Shape(h) && Emptied(h, m, di, a, ys)
    requires Inv(h, {a})
    ensures 0 <= di < DESC_CNT && OthersIntact(h, SmallDropped(h, m, di, a, ys), {})
  {
    hide Inv, IsList, Peek, Per, Size, PageOf, IsBlockAt, KeptOutside, Block;
    PerPositive(di);
    EmptiedNotLive(h, m, di, a, ys);
    forall q | q in h.live
      ensures Cap(SmallDropped(h, m, di, a, ys), q) == Cap(h, q)
      ensures forall x :: q <= x < q + Cap(h, q) ==> Peek(m, x) == Peek(h.words, x)
    {
      LiveNotFree(h, q, di, {a});
      LiveKept(h, m, ListZones(h, di, Block(a, di, 0)), q, {a});
    }
    ZonesKeepForeign(h, SmallDropped(h, m, di, a, ys), ListZones(h, di, Block(a, di, 0)), {a});
  }

  lemma CollapsingHeader(h: Heap, m: Words, di: int, a: int, cur: seq<Elem>, k: int)
    requires Shape(h) && 0 <= di < DESC_CNT && a in h.small && h.small[a] == di && Collapsing(h, m, di, a, cur, k)
    requires Inv(h, {a})
    ensures HeaderWords(h, m, di, a)
  {
    hide Inv, IsList, Per, Size, ZoneOf, KeptOutside;
    ArenaFacts(h, a, {a});
    DescKept(h, m, ListZones(h, di, Block(a, di, 0)), di, {a});
    HeaderKept(h, m, ListZones(h, di, Block(a, di, 0)), a, {a});
  }

  // ---------- large arenas ----------

  lemma WholeLeavesOthers(h: Heap, m: Words, a: int, n: int, size: int)
    requires Shape(h) && BuiltWhole(h, m, a, n, size)
    requires Inv(h, {})
    ensures OthersIntact(h, LargeAdded(h, m, a, n, size), {}) && a + HEADER !in h.live
    ensures Cap(LargeAdded(h, m, a, n, size), a + HEADER) == PAGE * n - HEADER
  {
    hide Inv, IsList, Peek, Per, Size, PageOf, IsBlockAt, KeptOutside;
    RunHasNoArena(h, a, n);
    HeaderInPage(a);
    forall q | q in h.live
      ensures Cap(LargeAdded(h, m, a, n, size), q) == Cap(h, q)
      ensures forall x :: q <= x < q + Cap(h, q) ==> Peek(m, x) == Peek(h.words, x)
    {
      LiveKept(h, m, {Outside}, q, {});
    }
    ZonesKeepForeign(h, LargeAdded(h, m, a, n, size), {Outside}, {});
  }

  lemma DropLeavesOthers(h: Heap, a: int)
    requires Shape(h) && a in h.large
    requires Inv(h, {})
    ensures OthersIntact(h, LargeDropped(h, a), {a + HEADER})
  {
    hide Inv, IsList, Peek, Per, Size, PageOf, IsBlockAt;
    forall q | q in h.live && q != a + HEADER ensures PageOf(q) != a {
      LiveFacts(h, q, {});
    }
  }

  /** Zeroed pages with a large arena's header in the first three words. */
  lemma WholeBuilt(h: Heap, m: Words, a: int, n: int, size: int)
    requires Shape(h) && IsRun(h, a, n) && 0 < size <= PAGE * n - HEADER
    requires forall x :: !(a <= x < a + PAGE * n) ==> Peek(m, x) == Peek(h.words, x)
    requires Peek(m, a) == 0 && Peek(m, a + 4) == n && Peek(m, a + 8) == 1
    requires Inv(h, {})
    ensures BuiltWhole(h, m, a, n, size)
  {
    hide Inv, Peek, ZoneOf;
    forall x | ZoneOf(h, x) != Outside ensures Peek(m, x) == Peek(h.words, x) {
      if a <= x < a + PAGE * n {
        RunIsOutside(h, a, n, x);
      }
    }
  }

  lemma OthersMore(h: Heap, h': Heap, p: int)
    requires OthersIntact(h, h', {})
    ensures OthersIntact(h, h', {p})
  {
    hide Cap, Peek;
  }

  lemma OthersSelf(h: Heap)
    ensures forall ps :: OthersIntact(h, h, ps)
  {
  }

  lemma ValidShape(h: Heap, full: set<int>)
    requires Inv(h, full)
    ensures Shape(h)
  {
    InvParts(h, full);
  }

  lemma NullNotLive(h: Heap)
    requires Inv(h, {})
    ensures 0 !in h.live
  {
    if 0 in h.live {
      LiveHeader(h, 0);
      assert false;
    }
  }

  /** The header words that `sys_free` reads for a live pointer. */
  lemma LiveHeader(h: Heap, p: int)
    requires p in h.live
    requires Inv(h, {})
    ensures h.start + HEADER <= p && 0 < PageOf(p) < MEMORY_SIZE - PAGE
    ensures h.words[PageOf(p) + 8] == if PageOf(p) in h.large then 1 else 0
    ensures PageOf(p) in h.large ==>
            && Shape(h) && p == PageOf(p) + HEADER && h.words[PageOf(p)] == 0
            && h.words[PageOf(p) + 4] == h.large[PageOf(p)]
  {
    hide Inv, PageOf, IsBlockAt, Per, Size;
    LiveFacts(h, p, {});
    ArenaFacts(h, PageOf(p), {});
    if PageOf(p) !in h.large {
      BlockFacts(p, PageOf(p), h.small[PageOf(p)]);
    }
  }

  /** The counter is not a link word: appending leaves it. */
  lemma AppendedHeader(h: Heap, m1: Words, di: int, p: int)
    requires Shape(h) && 0 <= di < DESC_CNT && IsArenaBlock(h, di, p)
    requires OnlyElems(h.words, m1, Nodes(ListAddr(h, di), h.free[di]) + [p])
    requires Inv(h, {})
    ensures 0 < PageOf(p) < MEMORY_SIZE - PAGE && m1[PageOf(p) + 4] == h.words[PageOf(p) + 4]
  {
    hide Inv, PageOf, ZoneOf, Size, Per, OnlyElems;
    ArenaBlockDi(h, di, p);
    ArenaFacts(h, PageOf(p), {});
    LinksStayInZones(h, m1, di, p, {});
    HeaderKept(h, m1, ListZones(h, di, p), PageOf(p), {});
  }

  /** The counter and the descriptor that `sys_free` compares. */
  lemma GivenFacts(h: Heap, h1: Heap, di: int, p: int)
    requires Shape(h) && IsArenaBlock(h, di, p) && h1.small == h.small && h1.descs == h.descs && h1.start == h.start
             && h1.bits == h.bits
    requires Inv(h1, {PageOf(p)})
    ensures var a := PageOf(p);
            && 0 < a < MEMORY_SIZE - PAGE && a in h1.small && h1.small[a] == di && 0 <= di < DESC_CNT
            && h1.words[a] == DescAddr(h1, di) && h1.words[DescAddr(h1, di) + 4] == Per(di)
                && h1.words[a + 4] == Peek(h1.words, a + 4)
  {
    hide Inv, PageOf, ZoneOf, Size, Per, IsList;
    ArenaBlockDi(h, di, p);
    ArenaFacts(h1, PageOf(p), {PageOf(p)});
    ListIsThere(h1, di, {PageOf(p)});
  }

  /** The arena is gone, its page free, and none of its blocks is on the list. */
  ghost predicate ArenaFreed(h: Heap, h': Heap, a: int) {
    && a in h.small && 0 <= h.small[a] < DESC_CNT == |h.free| == |h'.free| && 0 <= Idx(h, a) < |h.bits|
    && var di := h.small[a];
       && (forall d :: 0 <= d < DESC_CNT && d != di ==> h'.free[d] == h.free[d]) && h'.large == h.large
       && h'.small == h.small - {a} && h'.bits == h.bits[Idx(h, a) := false]
       && (forall k :: 0 <= k < Per(di) ==> Block(a, di, k) in h.free[di])
       && (forall x :: x in h'.free[di] <==> x in h.free[di] && PageOf(x) != a)
  }

  lemma CollapseFrees(h: Heap, h': Heap, m: Words, di: int, a: int, ys: seq<Elem>)
    requires Shape(h) && Emptied(h, m, di, a, ys) && 0 <= Idx(h, a) < |h.bits|
    requires h'.free == h.free[di := ys] && h'.small == h.small - {a} && h'.large == h.large
             && h'.bits == SetRange(h.bits, Idx(h, a), 1, false)
    ensures ArenaFreed(h, h', a)
  {
    hide IsList, KeptOutside, PageOf, Per, Block;
    assert SetRange(h.bits, Idx(h, a), 1, false) == h.bits[Idx(h, a) := false];
    hide Idx;
  }

  /** The arena of a live pointer is in its place. */
  lemma ArenaPlace(h: Heap, p: int)
    requires p in h.live
    requires Inv(h, {})
    ensures var a := PageOf(p);
            && 0 <= Idx(h, a) < |h.bits|
            && (a !in h.large ==> a in h.small && 0 <= h.small[a] < DESC_CNT == |h.free|)
            && (a in h.large ==>
                  && 0 < h.large[a] && Idx(h, a) + h.large[a] <= |h.bits| && Peek(h.words, a + 4) == h.large[a]
                  && a !in h.small)
  {
    hide PageOf, IsList, Idx, DescsOk, FreeOk, Peek;
    var a := PageOf(p);
    if a in h.large {
      assert LargeOk(h, a);
    } else {
      assert SmallOk(h, a, {});
    }
  }

  lemma OneBlockFreed(h: Heap, h': Heap, p: Elem)
    requires PageOf(p) in h.small && 0 <= h.small[PageOf(p)] < DESC_CNT == |h.free| && 0 <= Idx(h, PageOf(p)) < |h.bits|
    requires h'.free == h.free[h.small[PageOf(p)] := h.free[h.small[PageOf(p)]] + [p]]
    requires h'.small == h.small && h'.large == h.large && h'.bits == h.bits
    ensures BlockFreed(h, h', p)
  {
    hide PageOf, Per, Block, Idx;
  }

  lemma LastBlockFreed(h: Heap, h1: Heap, h2: Heap, p: Elem)
    requires PageOf(p) in h.small && 0 <= h.small[PageOf(p)] < DESC_CNT == |h.free| && 0 <= Idx(h, PageOf(p)) < |h.bits|
    requires h1.free == h.free[h.small[PageOf(p)] := h.free[h.small[PageOf(p)]] + [p]]
    requires h1.small == h.small && h1.large == h.large && h1.bits == h.bits && h1.start == h.start
    requires ArenaFreed(h1, h2, PageOf(p))
    ensures BlockFreed(h, h2, p)
  {
    hide PageOf, Per, Block;
  }

  lemma GivenNotFull(h: Heap, di: int, a: int)
    requires a in h.small && h.small[a] == di && Peek(h.words, a + 4) != Per(di)
    requires Inv(h, {a})
    ensures Inv(h, {})
  {
    hide Inv, PageOf, Size, Per, IsList, Peek;
    ArenaFacts(h, a, {a});
    CountBounds(h.free[di], a, di, Per(di)) by { PerPositive(di); }
    NotFull(h, a);
  }

  lemma FirstBlockOf(h: Heap, di: int, a: int)
    requires Shape(h) && 0 <= di < DESC_CNT && a in h.small && h.small[a] == di
    requires forall k :: 0 <= k < Per(di) ==> Block(a, di, k) in h.free[di]
    requires Inv(h, {a})
    ensures IsArenaBlock(h, di, Block(a, di, 0))
  {
    hide Inv, PageOf, IsBlockAt, IsArenaBlock;
    PerPositive(di);
    FreeIsArenaBlock(h, di, {a});
  }

  /** The run that first fit finds, as an address. */
  lemma FoundRun(h: Heap, i: int, n: int)
    requires Shape(h) && n > 0 && Bitmaps.Clear(h.bits, i, n)
    ensures Idx(h, h.start + PAGE * i) == i && IsRun(h, h.start + PAGE * i, n)
  {
  }

  lemma FitIffRun(bits: seq<bool>, n: nat)
    requires n > 0
    ensures Bitmaps.FirstFit(bits, n) != -1 <==> HasRun(bits, n)
  {
    if i :| Bitmaps.Clear(bits, i, n) {
      assert 0 <= i < |bits|;
    }
  }

  /** What a call finds outside of the heap: the bit behind the bitmap, and whether the pools have a frame
      for each page and for each page table that is missing (Frames.dfy says so of a state of the pools
      and tables, and that `malloc_page` there answers as here). */
  datatype Around = Around(guard: bool, frames: bool)

  ghost predicate HasRun(bits: seq<bool>, n: nat) { exists i :: Bitmaps.Clear(bits, i, n) }

  /** Where `malloc_page` stops the kernel: an ASSERT on the number of pages, a bitmap with no clear bit,
      a user run at the last page below the kernel, or a pool with no frame left. */
  ghost predicate Stops(kernel: bool, start: int, bits: seq<bool>, n: nat, around: Around) {
    || n >= Allocation.MAX_PAGES || Allocation.IsFull(bits)
    || (HasRun(bits, n) && (!around.frames || (!kernel && start + PAGE * Bitmaps.FirstFit(bits, n) >= LAST_USER_PAGE)))
  }

  /** The pages that a request of more than 1024 bytes takes. */
  function PagesFor(size: int): int { (size + HEADER + PAGE - 1) / PAGE }

  /** From which size on the assertion on the number of pages fails. */
  lemma TooManyPages(size: int)
    ensures PagesFor(size) >= Allocation.MAX_PAGES <==> size > PAGE * (Allocation.MAX_PAGES - 1) - HEADER
  {
  }

  /** On a machine with 32 MB such a size is below the pool's, so that `sys_malloc` of it stops the
      kernel, with every page of the heap free. */
  lemma StopsBelowPool(bits: seq<bool>, around: Around)
    ensures var size, pool := 15_724_533, PAGE * Boot.KernelPages(0x200_0000);
            size < pool && PagesFor(size) == Allocation.MAX_PAGES
                && Stops(true, K_HEAP_START, bits, PagesFor(size), around)
    ensures PagesFor(15_724_532) < Allocation.MAX_PAGES
  {
    assert Boot.KernelPages(0x200_0000) == 3840;
  }

  /** The first descriptor whose blocks hold that many bytes. */
  function ClassOf(size: int): (di: int)
    requires 0 < size <= 1024
    ensures 0 <= di < DESC_CNT && size <= Size(di) && (di > 0 ==> Size(di - 1) < size)
  {
    if size <= 16 then 0 else if size <= 32 then 1 else if size <= 64 then 2 else if size <= 128 then 3
    else if size <= 256 then 4 else if size <= 512 then 5 else 6
  }

  lemma ClassIsUnique(size: int, di: int)
    requires 0 < size <= 1024 && 0 <= di < DESC_CNT && size <= Size(di) && (di > 0 ==> Size(di - 1) < size)
    ensures di == ClassOf(size)
  {
  }

  /** The bytes a request gets: the blocks of its class, or whole pages less the header. */
  function RoomFor(size: int): int
    requires 0 < size
  {
    if size > 1024 then PAGE * PagesFor(size) - HEADER else Size(ClassOf(size))
  }

  /** No smaller class and no smaller number of pages would do. */
  lemma RoomIsLeast(size: int)
    requires 0 < size
    ensures size <= RoomFor(size)
    ensures size > 1024 ==> (RoomFor(size) + 12) % 4096 == 0 && RoomFor(size) - 4096 < size
    ensures size <= 1024 ==>
            RoomFor(size) in {16, 32, 64, 128, 256, 512, 1024} && (RoomFor(size) == 16 || RoomFor(size) < 2 * size)
  {
  }

  /** The new large arena as `sys_malloc` hands it out. */
  lemma LargeIsThere(h: Heap, m: Words, a: int, n: int, size: int)
    requires Shape(h) && BuiltWhole(h, m, a, n, size)
    requires Inv(h, {})
    ensures var h' := LargeAdded(h, m, a, n, size);
            && Inv(h', {}) && OthersIntact(h, h', {a + HEADER}) && a + HEADER !in h.live
            && Cap(h', a + HEADER) == PAGE * n - HEADER
  {
    hide Inv, PageOf, Size, Per, Peek, Cap, OthersIntact, BuiltWhole, LargeAdded;
    LargeKeepsInv(h, m, a, n, size);
    WholeLeavesOthers(h, m, a, n, size);
    OthersMore(h, LargeAdded(h, m, a, n, size), a + HEADER);
  }

  lemma LargeRoom(size: int)
    requires size > 1024
    ensures PagesFor(size) > 0 && size <= PAGE * PagesFor(size) - HEADER == RoomFor(size)
  {
  }

  function StartOf(kernel: bool): int { if kernel then K_HEAP_START else USER_VADDR_START }

  class KernelHeap {
    const kernel: bool     // the running thread has no page directory of its own
    const poolSize: int
    const start: int
    const descs: int
    const mem: Memory
    var bits: seq<bool>
    ghost var free: seq<seq<Elem>>
    ghost var small: map<int, int>
    ghost var large: map<int, int>
    ghost var owner: map<int, int>
    ghost var foreign: set<int>
    ghost var live: map<int, int>

    /** An empty heap in a space whose pages may be taken already; `block_desc_init` makes its
        descriptors. */
    constructor (kernel: bool, poolSize: int, bits: seq<bool>, descs: int, mem: Memory)
      requires StartOf(kernel) + PAGE * |bits| < MEMORY_SIZE - PAGE && 0 <= descs < MEMORY_SIZE - PAGE
      requires descs + 24 * DESC_CNT <= StartOf(kernel) || StartOf(kernel) + PAGE * |bits| <= descs
      requires 0 <= poolSize < MEMORY_SIZE - 2 * PAGE
      modifies mem
      ensures Valid({}) && live == map[] && this.mem == mem && this.bits == bits && this.kernel == kernel
      ensures forall i :: i in foreign <==> 0 <= i < |bits| && bits[i]
      ensures forall x :: !(descs <= x < descs + 24 * DESC_CNT) ==> Peek(mem.words, x) == Peek(old(mem.words), x)
    {
      this.kernel, this.poolSize, this.start, this.descs, this.mem := kernel, poolSize, StartOf(kernel), descs, mem;
      this.bits := bits;
      free := [[], [], [], [], [], [], []];
      small, large, owner, live := map[], map[], map[], map[];
      foreign := set i | 0 <= i < |bits| && bits[i];
      new;
      BlockDescInit(mem, descs);
      EmptyHeap(H());
    }

    ghost function H(): Heap
      reads this, mem
    {
      Heap(mem.words, bits, start, descs, free, small, large, owner, foreign, live)
    }

    ghost predicate Valid(full: set<int>)
      reads this, mem
    {
      Inv(H(), full) && start == StartOf(kernel) && 0 <= poolSize < MEMORY_SIZE - 2 * PAGE
    }

    /** The bit behind the bitmap does not lead the scan for n pages out of the space. */
    ghost predicate CanScan(n: nat, around: Around)
      reads this
    {
      0 < n < Allocation.MAX_PAGES && !Allocation.IsFull(bits) ==> Bitmaps.ScanExact(bits, around.guard, n)
    }

    ghost predicate MustStop(n: nat, around: Around)
      reads this
    {
      Stops(kernel, start, bits, n, around)
    }

    /** The first block of a free list is zeroed and handed out. */
    method TakeBlock(di: int, size: int, ghost full: set<int>) returns (p: int)
      requires Shape(H()) && 0 <= di < DESC_CNT && free[di] != [] && 0 < size <= Size(di)
      requires full <= {PageOf(free[di][0])}
      requires Valid(full)
      modifies this, mem
      ensures p == old(free[di][0]) && live == old(live)[p := size] && p !in old(live) && bits == old(bits)
      ensures free == old(free)[di := old(free[di])[1..]]
      ensures Valid({}) && Cap(H(), p) == Size(di) && Zeroed(mem.words, p, Size(di)) && OthersIntact(old(H()), H(), {p})
    {
      hide Inv, PageOf, Size, Per, Peek, ZoneOf, IsArenaBlock, IsList, OnlyElems, BlockMoved, Cap, OthersIntact, Moves;
      ghost var h := H();
      ListIsThere(h, di, full);
      p := mem.ListPop(descs + 24 * di + 8, free[di]);
      ghost var m1 := mem.words;
      FreeBlockFacts(h, di, p, full);
      PoppedFacts(h, m1, di, p, full);
      FreeNotLive(h, di, p, full);
      Peeked(m1, descs + 24 * di);
      MemSet(mem, p, mem.words[descs + 24 * di]);
      var a := BlockToArena(p);
      ghost var m2 := mem.words;
      Peeked(m2, a + 4);
      mem.words := mem.words[a + 4 := mem.words[a + 4] - 1];
      PokedWord(m2, mem.words, a + 4);
      free := free[di := free[di][1..]];
      live := live[p := size];
      TakenMoves(h, m1, mem.words, di, p, size, full);
      MoveKeepsInv(h, mem.words, di, p, free[di], live, full);
      MoveLeavesOthers(h, mem.words, di, p, free[di], live, full);
      BlockCap(h, di, p, full);
      SameCap(h, H(), p);
    }

    /** `malloc_page` on the heap's pages: the first run of n clear bits, if there is one. */
    method MallocPage(n: nat, around: Around) returns (r: Allocation.Outcome<int>)
      requires n > 0 && Shape(H()) && CanScan(n, around)
      modifies this`bits
      ensures r.Halt? <==> old(MustStop(n, around))
      ensures r.Null? <==> !old(MustStop(n, around)) && !HasRun(old(bits), n)
      ensures !r.Done? ==> bits == old(bits)
      ensures r.Done? ==> IsRun(old(H()), r.value, n) && r.value == start + PAGE * Bitmaps.FirstFit(old(bits), n)
      ensures r.Done? ==> bits == SetRange(old(bits), Idx(old(H()), r.value), n, true)
    {
      if n >= Allocation.MAX_PAGES || Allocation.IsFull(bits) {
        return Allocation.Halt;
      }
      hide Allocation.IsFull, Inv, Shape, IsRun, Bitmaps.Clear, Bitmaps.ScanExact, Bitmaps.ScanResult, Idx, HasRun;
      var i := Bitmaps.ScanResult(bits, around.guard, n);
      Bitmaps.ScanIsFirstFitIff(bits, around.guard, n);
      FitIffRun(bits, n);
      if i == -1 {
        return Allocation.Null;
      }
      if (!kernel && start + PAGE * i >= LAST_USER_PAGE) || !around.frames {
        return Allocation.Halt;
      }
      FoundRun(H(), i, n);
      r := Allocation.Done(start + PAGE * i);
      bits := SetRange(bits, i, n, true);
    }

    /** A new arena for an empty free list. */
    method BuildArena(di: int, around: Around) returns (r: Allocation.Outcome<int>)
      requires Shape(H()) && 0 <= di < DESC_CNT && free[di] == []
      requires Valid({})
      modifies this, mem
      ensures !r.Null? && (r.Halt? <==> old(MustStop(1, around)))
      ensures r.Halt? ==> H() == old(H())
      ensures r.Done? ==>
              && live == old(live) && |free| == DESC_CNT && free[di] != []
              && forall x :: x in free[di] ==> PageOf(x) == r.value
      ensures r.Done? ==> Valid({r.value}) && OthersIntact(old(H()), H(), {})
    {
      hide Inv, PageOf, Size, Per, Peek, ZoneOf, IsList, OnlyElems, OthersIntact, Built, Building, SetRange;
      hide KeptOutside;
      ghost var h := H();
      OneBitFree(bits);
      r := MallocPage(1, around);
      if !r.Done? {
        return;
      }
      var a := r.value;
      StartArena(h, di, a);
      ghost var ys := AppendBlocks(h, di, a);
      BuildingEnds(h, mem.words, di, a, ys);
      free := free[di := ys];
      small := small[a := di];
      owner := owner[(a - start) / PAGE := a];
      BuildKeepsInv(h, mem.words, di, a, ys);
      BuiltLeavesOthers(h, mem.words, di, a, ys);
      BuiltBlocks(h, mem.words, di, a, ys);
    }

    /** The page is zeroed and its header written. */
    method StartArena(ghost h: Heap, di: int, a: int)
      requires Shape(h) && 0 <= di < DESC_CNT && IsRun(h, a, 1) && h.free[di] == [] && descs == h.descs
               && mem.words == h.words
      requires Inv(h, {})
      modifies mem
      ensures Building(h, mem.words, di, a, [])
    {
      hide Inv, PageOf, Size, Per, Peek, ZoneOf, IsList, OnlyElems, Building, KeptOutside, IsRun;
      PageBounds(h, a, 1);
      ListIsThere(h, di, {});
      Peeked(mem.words, descs + 24 * di + 4);
      MemSet(mem, a, PAGE);
      ghost var m0 := mem.words;
      mem.words := mem.words[a := descs + 24 * di];
      PokedWord(m0, mem.words, a);
      ghost var m1 := mem.words;
      Peeked(m1, descs + 24 * di + 4);
      mem.words := mem.words[a + 4 := mem.words[descs + 24 * di + 4]];
      PokedWord(m1, mem.words, a + 4);
      ghost var m2 := mem.words;
      mem.words := mem.words[a + 8 := 0];
      PokedWord(m2, mem.words, a + 8);
      BuildingBegins(h, mem.words, di, a);
    }

    /** Appends every block of the arena to its descriptor's list. */
    method AppendBlocks(ghost h: Heap, di: int, a: int) returns (ghost ys: seq<Elem>)
      requires Shape(h) && 0 <= di < DESC_CNT && IsRun(h, a, 1) && Building(h, mem.words, di, a, []) && descs == h.descs
      requires Inv(h, {})
      modifies mem
      ensures Building(h, mem.words, di, a, ys) && |ys| == Per(di)
    {
      hide Inv, PageOf, Size, Per, Peek, ZoneOf, IsList, OnlyElems, Building, KeptOutside, ApartFrom;
      ys := [];
      var blockIdx := 0;
      BuildingHeader(h, mem.words, di, a, ys);
      while blockIdx < mem.words[mem.words[a] + 4]
        invariant 0 <= blockIdx == |ys| <= Per(di) && Building(h, mem.words, di, a, ys)
        invariant HeaderWords(h, mem.words, di, a)
        decreases Per(di) - blockIdx
      {
        ghost var m := mem.words;
        NextBlock(h, m, di, a, ys);
        var list := mem.words[a] + 8;
        var b := a + HEADER + blockIdx * mem.words[mem.words[a]];
        BuildingList(h, m, di, a, ys);
        var found := mem.ElemFind(list, b, ys);
        assert !found;
        mem.ListAppend(list, b, ys);
        BuildingStep(h, m, mem.words, di, a, ys, b);
        ys := ys + [b];
        BuildingHeader(h, mem.words, di, a, ys);
        blockIdx := blockIdx + 1;
      }
    }

    /** `sys_malloc`: NULL exactly for a size of 0, a size not below the pool's, and a large request
        for which no run of pages is free; the kernel stops exactly where `malloc_page` stops, for a
        small request only if its class has no free block; otherwise a zeroed block of the smallest
        class that holds the size, or of whole pages, which no live pointer had, and nothing else
        changes hands. */
    method SysMalloc(size: int, around: Around) returns (r: Allocation.Outcome<int>)
      requires 0 <= size < MEMORY_SIZE && Shape(H()) && CanScan(PagesFor(size), around)
      requires Valid({})
      modifies this, mem
      ensures Valid({})
      ensures r.Null? <==>
              || !(0 < size < poolSize)
              || (size > 1024 && !old(MustStop(PagesFor(size), around)) && !HasRun(old(bits), PagesFor(size)))
      ensures r.Halt? <==>
              && 0 < size < poolSize && old(MustStop(PagesFor(size), around))
              && (size <= 1024 ==> old(free)[ClassOf(size)] == [])
      ensures 0 < size <= 1024 && size < poolSize && old(free)[ClassOf(size)] != [] ==>
              && bits == old(bits) && r == Allocation.Done(old(free)[ClassOf(size)][0])
              && free == old(free)[ClassOf(size) := old(free)[ClassOf(size)][1..]]
      ensures r.Done? ==>
              var room := Cap(H(), r.value);
              && size <= room
              && (size > 1024 ==> (room + 12) % 4096 == 0 && room - 4096 < size)
              && (size <= 1024 ==> room in {16, 32, 64, 128, 256, 512, 1024} && (room == 16 || room < 2 * size))
      ensures !r.Done? ==> H() == old(H())
      ensures r.Done? ==>
              && r.value !in old(live) && live == old(live)[r.value := size]
              && size <= Cap(H(), r.value) == RoomFor(size)
      ensures r.Done? ==> Zeroed(mem.words, r.value, Cap(H(), r.value)) && OthersIntact(old(H()), H(), {r.value})
    {
      hide Inv, PageOf, Size, Per, Peek, Cap, OthersIntact, Shape, Stops, HasRun, Allocation.IsFull, Bitmaps.ScanExact;
      if !(size > 0 && size < poolSize) {
        return Allocation.Null;
      }
      RoomIsLeast(size);
      if size > 1024 {
        r := LargeMalloc(size, around);
      } else {
        r := SmallMalloc(size, around);
      }
    }

    /** The pages are zeroed and the header of a large arena is written. */
    method StartLarge(ghost h: Heap, a: int, pageCnt: int, size: int)
      requires Shape(h) && IsRun(h, a, pageCnt) && 0 < size <= PAGE * pageCnt - HEADER && mem.words == h.words
      requires Inv(h, {})
      modifies mem
      ensures BuiltWhole(h, mem.words, a, pageCnt, size) && Zeroed(mem.words, a + HEADER, PAGE * pageCnt - HEADER)
    {
      hide Inv, PageOf, Size, Per, Peek, BuiltWhole, IsRun;
      PageBounds(h, a, pageCnt);
      MemSet(mem, a, pageCnt * PAGE);
      ghost var m0 := mem.words;
      mem.words := mem.words[a := 0];
      PokedWord(m0, mem.words, a);
      ghost var m1 := mem.words;
      mem.words := mem.words[a + 4 := pageCnt];
      PokedWord(m1, mem.words, a + 4);
      ghost var m2 := mem.words;
      mem.words := mem.words[a + 8 := 1];
      PokedWord(m2, mem.words, a + 8);
      WholeBuilt(h, mem.words, a, pageCnt, size);
    }

    method LargeMalloc(size: int, around: Around) returns (r: Allocation.Outcome<int>)
      requires 1024 < size < poolSize && Shape(H()) && CanScan(PagesFor(size), around)
      requires Valid({})
      modifies this, mem
      ensures Valid({})
      ensures r.Null? <==> !old(MustStop(PagesFor(size), around)) && !HasRun(old(bits), PagesFor(size))
      ensures r.Halt? <==> old(MustStop(PagesFor(size), around))
      ensures !r.Done? ==> H() == old(H())
      ensures r.Done? ==>
              && r.value !in old(live) && live == old(live)[r.value := size]
              && Cap(H(), r.value) == RoomFor(size)
      ensures r.Done? ==> Zeroed(mem.words, r.value, Cap(H(), r.value)) && OthersIntact(old(H()), H(), {r.value})
    {
      hide Inv, PageOf, Size, Per, Peek, Cap, OthersIntact, BuiltWhole, Stops, HasRun, Allocation.IsFull;
      hide Bitmaps.ScanExact;
      hide RoomFor, IsRun, Shape, Zeroed, ClassOf;
      ghost var h := H();
      var pageCnt := (size + HEADER + PAGE - 1) / PAGE;
      LargeRoom(size);
      assert pageCnt == PagesFor(size);
      hide PagesFor;
      r := MallocPage(pageCnt, around);
      if !r.Done? {
        return;
      }
      var a := r.value;
      StartLarge(h, a, pageCnt, size);
      ghost var m := mem.words;
      large := large[a := pageCnt];
      owner := Owned(owner, (a - start) / PAGE, pageCnt, a);
      live := live[a + HEADER := size];
      assert H() == LargeAdded(h, m, a, pageCnt, size);
      LargeIsThere(h, m, a, pageCnt, size);
      r := Allocation.Done(a + HEADER);
    }

    /** The first descriptor whose blocks are large enough, and whether its free list is empty. */
    method FindDesc(size: int) returns (descIdx: int, empty: bool)
      requires 0 < size <= 1024 && Shape(H())
      requires Valid({})
      ensures 0 <= descIdx < DESC_CNT && descIdx == ClassOf(size)
      ensures empty <==> free[descIdx] == []
    {
      hide Inv, PageOf, Per, Peek, IsList;
      ghost var h := H();
      descIdx := 0;
      ListIsThere(h, 0, {});
      Peeked(h.words, descs);
      while size > mem.words[descs + 24 * descIdx]
        invariant 0 <= descIdx < DESC_CNT && mem.words[descs + 24 * descIdx] == Size(descIdx)
        invariant descIdx > 0 ==> Size(descIdx - 1) < size
        decreases DESC_CNT - descIdx
      {
        descIdx := descIdx + 1;
        ListIsThere(h, descIdx, {});
        Peeked(h.words, descs + 24 * descIdx);
      }
      ClassIsUnique(size, descIdx);
      ListIsThere(h, descIdx, {});
      empty := mem.ListEmpty(descs + 24 * descIdx + 8, free[descIdx]);
    }

    method SmallMalloc(size: int, around: Around) returns (r: Allocation.Outcome<int>)
      requires 0 < size <= 1024 && Shape(H())
      requires Valid({})
      modifies this, mem
      ensures Valid({}) && !r.Null?
      ensures r.Halt? <==> old(free)[ClassOf(size)] == [] && old(MustStop(1, around))
      ensures r.Halt? ==> H() == old(H())
      ensures old(free)[ClassOf(size)] != [] ==> bits == old(bits)
      ensures old(free)[ClassOf(size)] != [] ==>
              && r == Allocation.Done(old(free)[ClassOf(size)][0])
              && free == old(free)[ClassOf(size) := old(free)[ClassOf(size)][1..]]
      ensures r.Done? ==>
              && r.value !in old(live) && live == old(live)[r.value := size]
              && Cap(H(), r.value) == RoomFor(size)
      ensures r.Done? ==> Zeroed(mem.words, r.value, Cap(H(), r.value)) && OthersIntact(old(H()), H(), {r.value})
    {
      hide Inv, PageOf, Per, Size, Peek, Cap, OthersIntact, IsList, ClassOf;
      ghost var h := H();
      var descIdx, empty := FindDesc(size);
      ghost var full := {};
      OthersSelf(h);
      if empty {
        r := BuildArena(descIdx, around);
        if r.Halt? {
          return;
        }
        full := {r.value};
      }
      ghost var h1 := H();
      ValidShape(h1, full);
      var p := TakeBlock(descIdx, size, full);
      OthersChain(h, h1, H(), {}, {p}, {p});
      r := Allocation.Done(p);
    }

    /** A block goes back to its free list; an arena that is all free goes back to the pages. */
    method GiveBack(p: int)
      requires p in live && PageOf(p) !in large
      requires Valid({})
      modifies this, mem
      ensures Valid({}) && live == old(live) - {p} && OthersIntact(old(H()), H(), {p})
      ensures BlockFreed(old(H()), H(), p)
    {
      hide Inv, PageOf, Per, Size, Peek, Cap, OthersIntact, IsList, OnlyElems, IsArenaBlock, ApartFrom, ZoneOf, Moves;
      hide BlockFreed, ArenaFreed;
      ghost var h := H();
      ghost var di := SmallLive(h, p);
      ArenaPlace(h, p);
      ListIsThere(h, di, {});
      var a := BlockToArena(p);
      mem.ListAppend(mem.words[a] + 8, p, free[di]);
      ghost var m1 := mem.words;
      AppendedHeader(h, m1, di, p);
      var cnt := mem.words[a + 4] + 1;
      mem.words := mem.words[a + 4 := cnt];
      PokedWord(m1, mem.words, a + 4);
      Peeked(m1, a + 4);
      free := free[di := free[di] + [p]];
      live := live - {p};
      GivenMoves(h, m1, mem.words, di, p);
      MoveKeepsInv(h, mem.words, di, p, free[di], live, {});
      MoveLeavesOthers(h, mem.words, di, p, free[di], live, {});
      GivenFacts(h, H(), di, p);
      if cnt == mem.words[mem.words[a] + 4] {
        ghost var h1 := H();
        Collapse(a);
        OthersChain(h, h1, H(), {p}, {}, {p});
        LastBlockFreed(h, h1, H(), p);
      } else {
        GivenNotFull(H(), di, a);
        OneBlockFreed(h, H(), p);
      }
    }

    /** Every block of arena a leaves the free list, and its page is freed. */
    method Collapse(a: int)
      requires a in small && Peek(mem.words, a + 4) == Per(small[a])
      requires Valid({a})
      modifies this, mem
      ensures Valid({}) && live == old(live) && OthersIntact(old(H()), H(), {})
      ensures ArenaFreed(old(H()), H(), a)
    {
      hide Inv, PageOf, Per, Size, Peek, Cap, OthersIntact, IsList, OnlyElems, IsArenaBlock, Collapsing, ZoneOf;
      hide Emptied;
      ghost var h, di := H(), small[a];
      ArenaIsFree(h, a, {a});
      ArenaFacts(h, a, {a});
      ghost var cur := free[di];
      CollapseBegins(h, di, a);
      CollapsingHeader(h, mem.words, di, a, cur, 0);
      FirstBlockOf(h, di, a);
      var blockIdx := 0;
      while blockIdx < mem.words[mem.words[a] + 4]
        modifies mem
        invariant 0 <= blockIdx <= Per(di) && Collapsing(h, mem.words, di, a, cur, blockIdx)
        invariant HeaderWords(h, mem.words, di, a)
        decreases Per(di) - blockIdx
      {
        ghost var m := mem.words;
        var b := a + HEADER + blockIdx * mem.words[mem.words[a]];
        ghost var i := NextIsListed(h, m, di, a, cur, blockIdx);
        var found := mem.ElemFind(mem.words[a] + 8, b, cur);
        assert found;
        mem.ListRemove(b, mem.words[a] + 8, cur, i);
        CollapseStep(h, m, mem.words, di, a, cur, blockIdx, i);
        cur := Without(cur, i);
        blockIdx := blockIdx + 1;
        CollapsingHeader(h, mem.words, di, a, cur, blockIdx);
      }
      PerPositive(di);
      CollapseEnds(h, mem.words, di, a, cur);
      free := free[di := cur];
      small := small - {a};
      owner := owner - {(a - start) / PAGE};
      bits := SetRange(bits, (a - start) / PAGE, 1, false);
      CollapseKeepsInv(h, mem.words, di, a, cur);
      CollapseLeavesOthers(h, mem.words, di, a, cur);
      CollapseFrees(h, H(), mem.words, di, a, cur);
    }

    /** `sys_free`. */
    method SysFree(ptr: int)
      requires ptr == 0 || ptr in live
      requires Valid({})
      modifies this, mem
      ensures Valid({}) && live == old(live) - {ptr} && OthersIntact(old(H()), H(), {ptr})
      ensures ptr == 0 ==> H() == old(H())
      ensures ptr != 0 ==>
                if PageOf(ptr) in old(large) then PagesFreed(old(H()), H(), ptr) else BlockFreed(old(H()), H(), ptr)
    {
      hide Inv, PageOf, Per, Size, Peek, Cap, OthersIntact, IsList, BlockFreed;
      if ptr == 0 {
        NullNotLive(H());
        OthersSelf(H());
        return;
      }
      ghost var h := H();
      LiveHeader(h, ptr);
      ArenaPlace(h, ptr);
      if kernel {
        assert ptr >= K_HEAP_START;
      }
      var a := BlockToArena(ptr);
      assert mem.words[a + 8] == 1 || mem.words[a + 8] == 0;
      if mem.words[a] == 0 && mem.words[a + 8] == 1 {
        var pageCnt := mem.words[a + 4];
        bits := SetRange(bits, (a - start) / PAGE, pageCnt, false);
        owner := Disowned(owner, (a - start) / PAGE, pageCnt);
        large := large - {a};
        live := live - {ptr};
        DropKeepsInv(h, a);
        DropLeavesOthers(h, a);
        assert PagesFreed(h, H(), ptr);
      } else {
        GiveBack(ptr);
      }
    }

    // ---------- others, between calls ----------

    /** Somebody else gets zeroed pages of the same space with `malloc_page`. */
    method OthersTake(n: nat, around: Around) returns (r: Allocation.Outcome<int>)
      requires n > 0 && Shape(H()) && CanScan(n, around)
      requires Valid({})
      modifies this`bits, this`foreign, mem
      ensures OthersStep(old(H()), H()) && Valid({}) && AllKept(old(H()), H())
      ensures r.Done? ==>
              && foreign == old(foreign) + RunPages(Idx(H(), r.value), n)
              && RunPages(Idx(H(), r.value), n) !! old(foreign)
      ensures !r.Done? ==> foreign == old(foreign)
    {
      hide Inv, Peek, Stops, HasRun, Allocation.IsFull, Bitmaps.ScanExact, Bitmaps.FirstFit, ZoneOf, IsRun, Shape;
      hide RunPages;
      ghost var h := H();
      r := MallocPage(n, around);
      if r.Done? {
        PageBounds(h, r.value, n);
        MemSet(mem, r.value, n * PAGE);
        foreign := foreign + RunPages((r.value - start) / PAGE, n);
        RunIsTaken(h, H(), r.value, n);
      } else {
        NothingTaken(h, H());
      }
      OthersKeepInv(h, H());
    }

    /** Somebody else gets the page of a given clear bit, as `get_a_page` does. */
    method OthersTakeAt(i: int)
      requires 0 <= i < |bits| && !bits[i]
      requires Valid({})
      modifies this`bits, this`foreign
      ensures OthersStep(old(H()), H()) && Valid({}) && AllKept(old(H()), H())
      ensures foreign == old(foreign) + {i}
    {
      hide Inv, Peek, ZoneOf;
      ghost var h := H();
      bits := bits[i := true];
      foreign := foreign + {i};
      BitIsTaken(h, H(), i);
      OthersKeepInv(h, H());
    }

    /** Somebody else gives back a page. */
    method OthersGiveBack(i: int)
      requires i in foreign
      requires Valid({})
      modifies this`bits, this`foreign
      ensures OthersStep(old(H()), H()) && Valid({}) && AllKept(old(H()), H())
      ensures foreign == old(foreign) - {i}
    {
      hide Inv, Peek, ZoneOf;
      ghost var h := H();
      PageOfOthers(h, i);
      bits := bits[i := false];
      foreign := foreign - {i};
      BitIsGivenBack(h, H(), i);
      OthersKeepInv(h, H());
    }

    /** Somebody else writes to a page of theirs. */
    method OthersWrite(x: int, w: Word)
      requires 0 <= x < MEMORY_SIZE && (x - start) / PAGE in foreign
      requires Valid({})
      modifies mem
      ensures OthersStep(old(H()), H()) && Valid({}) && AllKept(old(H()), H())
      ensures foreign == old(foreign)
    {
      hide Inv, ZoneOf;
      ghost var h := H();
      mem.words := mem.words[x := w];
      WordIsWritten(h, H(), x);
      OthersKeepInv(h, H());
    }

    // ---------- holders, between calls ----------

    /** The holder of p stores a word anywhere in its block. */
    method HolderWrites(p: int, x: int, w: Word)
      requires p in live && p <= x < p + Cap(H(), p)
      requires Valid({})
      modifies mem
      ensures Valid({}) && OthersIntact(old(H()), H(), {p})
      ensures Cap(H(), p) == old(Cap(H(), p))
      ensures 0 <= x < MEMORY_SIZE && mem.words == old(mem.words)[x := w]
    {
      hide Inv, Cap, Kept;
      ghost var h := H();
      LiveBounds(h, p);
      mem.words := mem.words[x := w];
      ghost var h' := H();
      assert HolderStep(h, h', p);
      HolderKeepsInv(h, h', p);
      HolderLeavesForeign(h, h', p);
      SameRoom(h, h', p);
    }
  }

  /** A live block lies in memory. */
  lemma LiveBounds(h: Heap, p: int)
    requires p in h.live
    requires Inv(h, {})
    ensures 0 <= p && p + Cap(h, p) <= MEMORY_SIZE
  {
    LiveFacts(h, p, {});
    ArenaFacts(h, PageOf(p), {});
    if PageOf(p) in h.small {
      BlockFacts(p, PageOf(p), h.small[PageOf(p)]);
    }
  }

  lemma HolderLeavesForeign(h: Heap, h': Heap, p: int)
    requires HolderStep(h, h', p)
    requires Inv(h, {})
    ensures ForeignKept(h, h')
  {
    hide Inv, Peek, ZoneOf, PageOf, Cap, KeptOutside;
    HolderStaysIn(h, h', p);
    ZonesKeepForeign(h, h', HolderZones(h, p), {});
  }

  lemma SameRoom(h: Heap, h': Heap, p: int)
    requires HolderStep(h, h', p)
    ensures Cap(h', p) == Cap(h, p)
  {
  }

  lemma NothingTaken(h: Heap, h': Heap)
    requires h' == h
    requires Inv(h, {})
    ensures OthersStep(h, h')
  {
    hide FreeOk, LiveOk, DescsOk, SmallOk, LargeOk, ZoneOf, Peek;
  }

  lemma RunIsTaken(h: Heap, h': Heap, a: int, n: nat)
    requires IsRun(h, a, n)
    requires h' == h.(words := h'.words, bits := SetRange(h.bits, Idx(h, a), n, true),
             foreign := h.foreign + RunPages(Idx(h, a), n))
    requires forall x :: !(a <= x < a + PAGE * n) ==> Peek(h'.words, x) == Peek(h.words, x)
    requires Inv(h, {})
    ensures OthersStep(h, h') && RunPages(Idx(h, a), n) !! h.foreign
  {
    hide FreeOk, LiveOk, DescsOk, SmallOk, LargeOk, ZoneOf, Peek;
    RunUnowned(h, a, n, {});
    forall x | ZoneOf(h, x) != Outside ensures Peek(h'.words, x) == Peek(h.words, x) {
      if a <= x < a + PAGE * n {
        RunIsOutside(h, a, n, x);
      }
    }
  }

  lemma BitIsTaken(h: Heap, h': Heap, i: int)
    requires 0 <= i < |h.bits| && !h.bits[i] && h' == h.(bits := h.bits[i := true], foreign := h.foreign + {i})
    requires Inv(h, {})
    ensures OthersStep(h, h')
  {
    hide FreeOk, LiveOk, DescsOk, SmallOk, LargeOk, ZoneOf, Peek;
  }

  lemma PageOfOthers(h: Heap, i: int)
    requires i in h.foreign
    requires Inv(h, {})
    ensures 0 <= i < |h.bits| && h.bits[i] && i !in h.owner
  {
    hide FreeOk, LiveOk, DescsOk, SmallOk, LargeOk;
  }

  lemma BitIsGivenBack(h: Heap, h': Heap, i: int)
    requires i in h.foreign && 0 <= i < |h.bits| && h' == h.(bits := h.bits[i := false], foreign := h.foreign - {i})
    requires Inv(h, {})
    ensures OthersStep(h, h')
  {
    hide FreeOk, LiveOk, DescsOk, SmallOk, LargeOk, ZoneOf, Peek;
  }

  lemma WordIsWritten(h: Heap, h': Heap, x: int)
    requires 0 <= x < MEMORY_SIZE && (x - h.start) / PAGE in h.foreign && h' == h.(words := h.words[x := h'.words[x]])
    requires Inv(h, {})
    ensures OthersStep(h, h')
  {
    hide FreeOk, LiveOk, DescsOk, SmallOk, LargeOk, ZoneOf;
    ForeignZone(h, x, {});
    forall y | ZoneOf(h, y) != Foreign((x - h.start) / PAGE) ensures Peek(h'.words, y) == Peek(h.words, y) {}
  }
}
