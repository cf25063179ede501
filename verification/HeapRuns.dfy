/** Whole runs of `sys_malloc` and `sys_free` on one heap (v1-src/kernel/memory.c:61-142,
    v1-src/kernel/memory.c:225-265). */
module HeapRuns {
  import opened Common
  import opened Lists
  import opened Arena
  import opened ArenaPages
  import opened Malloc
  import Bitmaps

  /** A request; the release of the k-th of the pointers that are held; a store of its holder; or
      something others do. */
  datatype Call =
    | Alloc(size: Word, around: Around)
    | Free(k: nat)
    | Store(k: nat, offset: nat, w: Word)
    | Others(move: Move)

  /** Others get pages with `malloc_page` or `get_a_page`, give one back, or write to one. */
  datatype Move = Take(n: nat, around: Around) | TakeAt(i: int) | GiveBack(i: int) | Poke(x: Word, w: Word)

  /** The pointers held are the live ones, each once. */
  ghost predicate Holds(live: map<int, int>, ptrs: seq<int>) {
    && (forall p :: p in live <==> p in ptrs)
    && (forall i, j :: 0 <= i < j < |ptrs| ==> ptrs[i] != ptrs[j])
  }

  lemma HoldsMore(live: map<int, int>, ptrs: seq<int>, p: int, size: int)
    requires Holds(live, ptrs) && p !in live
    ensures Holds(live[p := size], ptrs + [p])
  {
  }

  lemma HoldsLess(live: map<int, int>, ptrs: seq<int>, k: nat)
    requires Holds(live, ptrs) && k < |ptrs|
    ensures ptrs[k] in live && Holds(live - {ptrs[k]}, ptrs[..k] + ptrs[k + 1..])
  {
    var qs := ptrs[..k] + ptrs[k + 1..];
    assert ptrs[k] in ptrs;
    forall p ensures p in live - {ptrs[k]} <==> p in qs {
      if p in ptrs && p != ptrs[k] {
        var i :| 0 <= i < |ptrs| && ptrs[i] == p;
        assert qs[if i < k then i else i - 1] == p;
      }
      if p in qs {
        var m :| 0 <= m < |qs| && qs[m] == p;
        assert ptrs[if m < k then m else m + 1] == p;
      }
    }
  }

  /** The bytes of two pointers do not overlap. */
  predicate NoOverlap(h: Heap, p: int, q: int) { p + Cap(h, p) <= q || q + Cap(h, q) <= p }

  /** Every block held is as large as was asked for and apart from the others. */
  ghost predicate HeldOk(h: Heap, ptrs: seq<int>) {
    && (forall i :: 0 <= i < |ptrs| ==> ptrs[i] in h.live && 0 < h.live[ptrs[i]] <= Cap(h, ptrs[i]))
    && (forall i, j :: 0 <= i < j < |ptrs| ==> NoOverlap(h, ptrs[i], ptrs[j]))
  }

  lemma LiveRoom(h: Heap, p: int)
    requires p in h.live
    requires Inv(h, {})
    ensures 0 < h.live[p] <= Cap(h, p)
  {
    hide Cap, PageOf, Size, Per, Peek;
  }

  lemma HeldIsOk(h: Heap, ptrs: seq<int>)
    requires Holds(h.live, ptrs)
    requires Inv(h, {})
    ensures HeldOk(h, ptrs)
  {
    hide Inv, Cap;
    forall i | 0 <= i < |ptrs| ensures ptrs[i] in h.live && 0 < h.live[ptrs[i]] <= Cap(h, ptrs[i]) {
      assert ptrs[i] in ptrs;
      LiveRoom(h, ptrs[i]);
    }
    forall i, j | 0 <= i < j < |ptrs| ensures NoOverlap(h, ptrs[i], ptrs[j]) {
      var p, q := ptrs[i], ptrs[j];
      assert p in h.live && q in h.live;
      LiveBlocksDisjoint(h, p, q, if p <= q then q else p);
    }
  }

  // ---------- what holders may expect of their blocks ----------

  function Zeros(n: int): (block: seq<Word>)
    ensures |block| == (if n < 0 then 0 else n) && forall j :: 0 <= j < |block| ==> block[j] == 0
  {
    if n < 0 then [] else seq(n, _ => 0)
  }

  function Written(block: seq<Word>, i: nat, w: Word): seq<Word>
    requires i < |block|
  {
    block[i := w]
  }

  /** The blocks that are held, as a holder thinks of them, after one more call: a new block is all
      zero, a store changes the one word, and nothing else ever changes. */
  function Applied(blocks: seq<seq<Word>>, call: Call, granted: bool): seq<seq<Word>> {
    match call
    case Alloc(size, _) => if granted && size > 0 then blocks + [Zeros(RoomFor(size))] else blocks
    case Free(k) => if k < |blocks| then blocks[..k] + blocks[k + 1..] else blocks
    case Store(k, offset, w) =>
      if k < |blocks| && offset < |blocks[k]| then blocks[k := Written(blocks[k], offset, w)] else blocks
    case Others(_) => blocks
  }

  /** After a run, of which each request was granted or not. */
  function Expected(calls: seq<Call>, granted: seq<bool>): seq<seq<Word>>
    requires |granted| == |calls|
  {
    if calls == [] then []
    else Applied(Expected(calls[..|calls| - 1], granted[..|calls| - 1]), calls[|calls| - 1], granted[|calls| - 1])
  }

  /** The words of a live block are these. */
  ghost predicate HasWords(h: Heap, p: int, block: seq<Word>) {
    p in h.live && |block| == Cap(h, p) && forall j :: 0 <= j < |block| ==> Peek(h.words, p + j) == block[j]
  }

  /** Memory has in each block held what its holder expects. */
  ghost predicate Reads(h: Heap, ptrs: seq<int>, blocks: seq<seq<Word>>) {
    |ptrs| == |blocks| && forall i :: 0 <= i < |ptrs| ==> HasWords(h, ptrs[i], blocks[i])
  }

  lemma KeptReads(h: Heap, h': Heap, p: int, block: seq<Word>)
    requires HasWords(h, p, block) && Kept(h, h', p)
    ensures HasWords(h', p, block)
  {
    hide Cap, Peek;
    forall j | 0 <= j < |block| ensures Peek(h'.words, p + j) == block[j] {
      assert Peek(h.words, p + j) == block[j];
    }
  }

  lemma AllReads(h: Heap, h': Heap, ptrs: seq<int>, blocks: seq<seq<Word>>)
    requires Reads(h, ptrs, blocks) && AllKept(h, h')
    ensures Reads(h', ptrs, blocks)
  {
    hide HasWords, Kept;
    forall i | 0 <= i < |ptrs| ensures HasWords(h', ptrs[i], blocks[i]) {
      assert ptrs[i] in h.live by { assert HasWords(h, ptrs[i], blocks[i]); AreLive(h, ptrs[i], blocks[i]); }
      KeptReads(h, h', ptrs[i], blocks[i]);
    }
  }

  lemma AreLive(h: Heap, p: int, block: seq<Word>)
    requires HasWords(h, p, block)
    ensures p in h.live
  {
  }

  lemma RoomIsPositive(size: int)
    requires size > 0
    ensures RoomFor(size) >= size
  {
  }

  /** A new block reads as zeros, and the others as before. */
  lemma NewReads(h: Heap, h': Heap, ptrs: seq<int>, blocks: seq<seq<Word>>, p: int, size: Word, around: Around)
    requires Reads(h, ptrs, blocks) && OthersIntact(h, h', {p}) && p !in h.live && p in h'.live && size > 0
    requires Cap(h', p) == RoomFor(size) && Zeroed(h'.words, p, RoomFor(size))
    ensures Reads(h', ptrs + [p], Applied(blocks, Alloc(size, around), true))
  {
    hide Cap, Peek, Kept, RoomFor;
    forall i | 0 <= i < |ptrs| ensures HasWords(h', ptrs[i], blocks[i]) {
      assert HasWords(h, ptrs[i], blocks[i]);
      KeptReads(h, h', ptrs[i], blocks[i]);
    }
    RoomIsPositive(size);
    assert HasWords(h', p, Zeros(RoomFor(size)));
  }

  /** A released block is gone, and the others read as before. */
  lemma LessReads(h: Heap, h': Heap, ptrs: seq<int>, blocks: seq<seq<Word>>, k: nat)
    requires Reads(h, ptrs, blocks) && k < |ptrs| && OthersIntact(h, h', {ptrs[k]})
    requires forall i, j :: 0 <= i < j < |ptrs| ==> ptrs[i] != ptrs[j]
    ensures Reads(h', ptrs[..k] + ptrs[k + 1..], Applied(blocks, Free(k), true))
  {
    hide Cap, Peek, Kept;
    forall i | 0 <= i < |ptrs| && i != k ensures HasWords(h', ptrs[i], blocks[i]) {
      assert HasWords(h, ptrs[i], blocks[i]);
      KeptReads(h, h', ptrs[i], blocks[i]);
    }
    hide HasWords;
  }

  /** A stored word is there, and all other words are as before. */
  lemma StoredReads(h: Heap, h': Heap, ptrs: seq<int>, blocks: seq<seq<Word>>, k: nat, offset: nat, w: Word)
    requires Reads(h, ptrs, blocks) && k < |ptrs| && OthersIntact(h, h', {ptrs[k]})
    requires forall i, j :: 0 <= i < j < |ptrs| ==> ptrs[i] != ptrs[j]
    requires offset < |blocks[k]| && h'.live == h.live && Cap(h', ptrs[k]) == Cap(h, ptrs[k])
    requires 0 <= ptrs[k] + offset < MEMORY_SIZE && h'.words == h.words[ptrs[k] + offset := w]
    ensures Reads(h', ptrs, Applied(blocks, Store(k, offset, w), true))
  {
    hide Cap, Kept;
    forall i | 0 <= i < |ptrs| && i != k ensures HasWords(h', ptrs[i], blocks[i]) {
      assert HasWords(h, ptrs[i], blocks[i]);
      KeptReads(h, h', ptrs[i], blocks[i]);
    }
    assert HasWords(h, ptrs[k], blocks[k]);
    assert HasWords(h', ptrs[k], Written(blocks[k], offset, w));
    hide HasWords;
  }

  /** Which requests are granted: none of size 0 or of the pool's size or more, and each other one of
      up to 1024 bytes. */
  predicate GrantOk(poolSize: int, call: Call, granted: bool) {
    call.Alloc? ==>
      && (granted ==> 0 < call.size < poolSize)
      && (0 < call.size <= 1024 && call.size < poolSize ==> granted)
  }

  /** A run may end at a call that takes pages. */
  predicate MayEnd(call: Call) { call.Alloc? || (call.Others? && call.move.Take?) }

  /** After any run, in which holders store into their blocks, and others take, give back and write
      pages, every block held reads exactly as its holder expects: zero, or what it stored last. The
      blocks share no byte and each is as large as was asked for. A run ends where the kernel stops,
      and where the bit behind the bitmap would lead the scan out of the space. */
  method RunCalls(heap: KernelHeap, calls: seq<Call>, theirs: set<int>)
    returns (ptrs: seq<int>, pages: set<int>, granted: seq<bool>)
    requires heap.live == map[] && heap.Valid({}) && heap.foreign == theirs
    modifies heap, heap.mem
    ensures heap.Valid({}) && Holds(heap.live, ptrs) && HeldOk(heap.H(), ptrs) && heap.foreign == pages
    ensures |granted| <= |calls| && Reads(heap.H(), ptrs, Expected(calls[..|granted|], granted))
    ensures forall n :: 0 <= n < |granted| ==> GrantOk(heap.poolSize, calls[n], granted[n])
    ensures |granted| < |calls| ==> MayEnd(calls[|granted|])
  {
    hide Inv, Cap, Holds, HeldOk, Reads, Applied;
    ptrs, pages, granted := [], theirs, [];
    var blocks := [];
    assert Holds(heap.live, ptrs) by { NothingHeld(); }
    assert Reads(heap.H(), ptrs, []) by { NothingRead(heap.H()); }
    var n, ended := 0, false;
    while n < |calls| && !ended
      invariant 0 <= n == |granted| <= |calls| && heap.Valid({}) && Holds(heap.live, ptrs) && heap.foreign == pages
      invariant blocks == Expected(calls[..n], granted) && Reads(heap.H(), ptrs, blocks)
      invariant forall m :: 0 <= m < n ==> GrantOk(heap.poolSize, calls[m], granted[m])
      invariant ended ==> n < |calls| && MayEnd(calls[n])
      decreases |calls| - n, !ended
    {
      var ok := false;
      match calls[n] {
        case Alloc(size, around) => ptrs, ended, ok := OneAlloc(heap, size, around, ptrs, blocks);
        case Free(k) => ptrs := OneFree(heap, k, ptrs, blocks);
        case Store(k, offset, w) => OneStore(heap, k, offset, w, ptrs, blocks);
        case Others(move) => pages, ended := OthersMove(heap, move, pages, ptrs, blocks);
      }
      if !ended {
        ExpectedNext(calls, n, granted, ok);
        blocks := Applied(blocks, calls[n], ok);
        granted := granted + [ok];
        n := n + 1;
      }
    }
    HeldIsOk(heap.H(), ptrs);
  }

  lemma ExpectedNext(calls: seq<Call>, n: nat, granted: seq<bool>, ok: bool)
    requires n < |calls| && |granted| == n
    ensures Expected(calls[..n + 1], granted + [ok]) == Applied(Expected(calls[..n], granted), calls[n], ok)
  {
    hide Applied;
    assert calls[..n + 1][..n] == calls[..n] && (granted + [ok])[..n] == granted;
  }

  lemma NothingRead(h: Heap)
    ensures Reads(h, [], [])
  {
  }

  lemma NothingHeld()
    ensures Holds(map[], [])
  {
  }

  lemma HoldsNothing(live: map<int, int>)
    requires Holds(live, [])
    ensures live == map[]
  {
    forall p ensures p !in live {
      assert p in live <==> p in [];
    }
  }

  /** The scan for n pages stays in the space. */
  method StaysInside(heap: KernelHeap, n: nat, around: Around) returns (inside: bool)
    requires n > 0
    ensures inside ==> heap.CanScan(n, around)
  {
    Bitmaps.ScanIsFirstFitIff(heap.bits, around.guard, n);
    inside := Bitmaps.ScanResult(heap.bits, around.guard, n) == Bitmaps.FirstFit(heap.bits, n);
  }

  method OneAlloc(heap: KernelHeap, size: Word, around: Around, held: seq<int>, blocks: seq<seq<Word>>)
    returns (ptrs: seq<int>, ended: bool, granted: bool)
    requires heap.Valid({}) && Holds(heap.live, held) && Reads(heap.H(), held, blocks)
    modifies heap, heap.mem
    ensures heap.Valid({}) && Holds(heap.live, ptrs) && heap.foreign == old(heap.foreign)
    ensures ended ==> Reads(heap.H(), ptrs, blocks)
    ensures !ended ==> Reads(heap.H(), ptrs, Applied(blocks, Alloc(size, around), granted))
    ensures !ended ==> GrantOk(heap.poolSize, Alloc(size, around), granted)
  {
    hide Inv, Cap, Peek, Holds, Zeroed, RoomFor, ClassOf, Stops, HasRun, Bitmaps.ScanExact, Bitmaps.ScanResult;
    hide Bitmaps.FirstFit, Reads, OthersIntact;
    ptrs, granted := held, false;
    var inside := StaysInside(heap, PagesFor(size), around);
    if !inside {
      return held, true, false;
    }
    ghost var h := heap.H();
    ValidShape(h, {});
    var r := heap.SysMalloc(size, around);
    ended := r.Halt?;
    if r.Done? {
      HoldsMore(h.live, held, r.value, size);
      ptrs, granted := held + [r.value], true;
      NewReads(h, heap.H(), held, blocks, r.value, size, around);
      IntactForeign(h, heap.H(), {r.value});
    }
  }

  lemma IntactForeign(h: Heap, h': Heap, ps: set<int>)
    requires OthersIntact(h, h', ps)
    ensures h'.foreign == h.foreign
  {
  }

  /** The release of the k-th pointer, if so many are held. */
  method OneFree(heap: KernelHeap, k: nat, held: seq<int>, blocks: seq<seq<Word>>) returns (ptrs: seq<int>)
    requires heap.Valid({}) && Holds(heap.live, held) && Reads(heap.H(), held, blocks)
    modifies heap, heap.mem
    ensures heap.Valid({}) && Holds(heap.live, ptrs) && heap.foreign == old(heap.foreign)
    ensures forall ok :: Reads(heap.H(), ptrs, Applied(blocks, Free(k), ok))
  {
    hide Inv, Cap, Peek, OthersIntact, HasWords;
    ptrs := held;
    if k < |held| {
      ghost var h := heap.H();
      HoldsLess(heap.live, held, k);
      heap.SysFree(held[k]);
      ptrs := held[..k] + held[k + 1..];
      LessReads(h, heap.H(), held, blocks, k);
      IntactForeign(h, heap.H(), {held[k]});
    }
  }

  /** The holder of the k-th pointer writes, if the word is in its block. */
  method OneStore(heap: KernelHeap, k: nat, offset: nat, w: Word, held: seq<int>, blocks: seq<seq<Word>>)
    requires heap.Valid({}) && Holds(heap.live, held) && Reads(heap.H(), held, blocks)
    modifies heap.mem
    ensures heap.Valid({}) && heap.foreign == old(heap.foreign)
    ensures forall ok :: Reads(heap.H(), held, Applied(blocks, Store(k, offset, w), ok))
  {
    hide Inv, Peek, OthersIntact, HasWords, Cap;
    if k < |held| {
      ghost var h := heap.H();
      RoomOf(h, held[k], blocks[k]);
      if offset < |blocks[k]| {
        heap.HolderWrites(held[k], held[k] + offset, w);
        StoredReads(h, heap.H(), held, blocks, k, offset, w);
      }
    }
  }

  lemma RoomOf(h: Heap, p: int, block: seq<Word>)
    requires HasWords(h, p, block)
    ensures p in h.live && |block| == Cap(h, p)
  {
  }

  /** What others do, if they may: take only free pages, and touch only their own. No word of a block
      that is held changes. */
  method OthersMove(heap: KernelHeap, move: Move, theirs: set<int>, held: seq<int>, blocks: seq<seq<Word>>)
    returns (pages: set<int>, ended: bool)
    requires heap.Valid({}) && heap.foreign == theirs && Reads(heap.H(), held, blocks)
    modifies heap`bits, heap`foreign, heap.mem
    ensures heap.Valid({}) && heap.foreign == pages && heap.live == old(heap.live) && (ended ==> move.Take?)
    ensures AllKept(old(heap.H()), heap.H()) && Reads(heap.H(), held, blocks)
    ensures forall ok :: Reads(heap.H(), held, Applied(blocks, Others(move), ok))
  {
    hide Inv, OthersStep, Stops, HasRun, Bitmaps.ScanExact, Bitmaps.ScanResult, Bitmaps.FirstFit, Kept, Reads;
    pages, ended := theirs, false;
    ghost var h := heap.H();
    NothingMoved(h);
    match move {
      case Take(n, around) =>
        if n > 0 {
          var inside := StaysInside(heap, n, around);
          if !inside {
            return theirs, true;
          }
          ValidShape(heap.H(), {});
          var r := heap.OthersTake(n, around);
          if r.Done? {
            pages := theirs + RunPages((r.value - heap.start) / PAGE, n);
          }
          ended := r.Halt?;
        }
      case TakeAt(i) =>
        if 0 <= i < |heap.bits| && !heap.bits[i] {
          heap.OthersTakeAt(i);
          pages := theirs + {i};
        }
      case GiveBack(i) =>
        if i in theirs {
          heap.OthersGiveBack(i);
          pages := theirs - {i};
        }
      case Poke(x, w) =>
        if (x - heap.start) / PAGE in theirs {
          heap.OthersWrite(x, w);
        }
    }
    AllReads(h, heap.H(), held, blocks);
  }

  lemma NothingMoved(h: Heap)
    ensures AllKept(h, h)
  {
  }

  /** Freeing everything gives every page of the heap back: exactly the pages of others keep their
      bits, with the same words in them, and in memory every free list is empty. */
  method FreeAll(heap: KernelHeap, held: seq<int>)
    requires Holds(heap.live, held) && heap.Valid({})
    modifies heap, heap.mem
    ensures heap.Valid({}) && heap.live == map[]
    ensures forall i :: 0 <= i < |heap.bits| ==> (heap.bits[i] <==> i in old(heap.foreign))
    ensures ForeignKept(old(heap.H()), heap.H())
    ensures forall di :: 0 <= di < DESC_CNT ==>
              0 <= heap.descs + 24 * di + 8 < MEMORY_SIZE - 16 && IsList(heap.mem.words, heap.descs + 24 * di + 8, [])
  {
    hide Inv, Peek, IsList, Holds, Cap;
    var ptrs := held;
    while ptrs != []
      invariant heap.Valid({}) && Holds(heap.live, ptrs) && ForeignKept(old(heap.H()), heap.H())
      decreases |ptrs|
    {
      HoldsLess(heap.live, ptrs, 0);
      heap.SysFree(ptrs[0]);
      assert ptrs[..0] + ptrs[1..] == ptrs[1..];
      ptrs := ptrs[1..];
    }
    ghost var h := heap.H();
    assert heap.live == map[] by { HoldsNothing(heap.live); }
    NothingLiveNothingHeld(h);
    ValidShape(h, {});
    forall di | 0 <= di < DESC_CNT
      ensures 0 <= h.descs + 24 * di + 8 < MEMORY_SIZE - 16 && IsList(h.words, h.descs + 24 * di + 8, [])
    {
      ListIsThere(h, di, {});
    }
  }
}
