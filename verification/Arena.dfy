/** The state of the arena allocator (v1-src/kernel/memory.c:31-59, v1-src/kernel/memory.c:61-142,
    v1-src/kernel/memory.c:225-265) for one heap: memory words with the intrusive free lists in
    them, the heap's page bitmap, and ghosts saying which arena owns a page and which pointers
    are live. */
module Arena {
  import opened Lists
  import Bitmaps

  const PAGE := 4096
  const DESC_CNT := 7
  const HEADER := 12

  /** The block sizes and blocks per arena that `block_desc_init` computes. */
  function Size(di: int): int {
    if di <= 0 then 16 else if di == 1 then 32 else if di == 2 then 64 else if di == 3 then 128
    else if di == 4 then 256 else if di == 5 then 512 else 1024
  }

  function Per(di: int): int {
    if di <= 0 then 255 else if di == 1 then 127 else if di == 2 then 63 else if di == 3 then 31
    else if di == 4 then 15 else if di == 5 then 7 else 3
  }

  /** Block sizes double from 16, and an arena holds as many blocks as fit after its header. */
  lemma DescTable(di: int)
    requires 0 <= di < DESC_CNT
    ensures di > 0 ==> Size(di) == 2 * Size(di - 1)
    ensures Per(di) == (PAGE - HEADER) / Size(di)
  {
  }

  /** `arena2block`. */
  function Block(a: int, di: int, k: int): int { a + HEADER + k * Size(di) }

  /** `block2arena`: the address with its low twelve bits cleared. */
  function PageOf(x: int): int { x - x % PAGE }

  predicate IsBlockAt(x: int, a: int, di: int) {
    exists k :: 0 <= k < Per(di) && x == Block(a, di, k)
  }

  /** A block lies in its arena's page behind the header. */
  lemma BlockBounds(a: int, di: int, k: int)
    requires 0 <= k < Per(di)
    ensures a + HEADER <= Block(a, di, k) && Block(a, di, k) + Size(di) <= a + PAGE
    ensures a % PAGE == 0 ==> PageOf(Block(a, di, k)) == a
  {
    if di <= 0 {} else if di == 1 {} else if di == 2 {} else if di == 3 {} else if di == 4 {} else if di == 5 {} else {}
  }

  lemma BlocksApart(a: int, di: int, k: int, k': int)
    requires k < k'
    ensures Block(a, di, k) + Size(di) <= Block(a, di, k')
  {
    if di <= 0 {} else if di == 1 {} else if di == 2 {} else if di == 3 {} else if di == 4 {} else if di == 5 {} else {}
  }

  lemma BlockFacts(x: int, a: int, di: int)
    requires IsBlockAt(x, a, di)
    ensures a + HEADER <= x && x + Size(di) <= a + PAGE && (a % PAGE == 0 ==> PageOf(x) == a)
  {
    var k :| 0 <= k < Per(di) && x == Block(a, di, k);
    BlockBounds(a, di, k);
  }

  lemma TwoBlocks(x: int, y: int, a: int, di: int)
    requires IsBlockAt(x, a, di) && IsBlockAt(y, a, di) && x != y
    ensures x + Size(di) <= y || y + Size(di) <= x
  {
    var k :| 0 <= k < Per(di) && x == Block(a, di, k);
    var l :| 0 <= l < Per(di) && y == Block(a, di, l);
    if k < l { BlocksApart(a, di, k, l); } else { BlocksApart(a, di, l, k); }
  }

  datatype Heap = Heap(
    words: Words,
    bits: seq<bool>,
    start: int,              // the address of the page of bit 0
    descs: int,              // the address of the descriptor array
    free: seq<seq<Elem>>,    // the contents of the free lists
    small: map<int, int>,    // arena -> descriptor index
    large: map<int, int>,    // large arena -> number of pages
    owner: map<int, int>,    // page number -> arena
    foreign: set<int>,       // the pages that others have taken from the same bitmap
    live: map<int, int>)     // live pointer -> requested size

  function DescAddr(h: Heap, di: int): int { h.descs + 24 * di }

  function ListAddr(h: Heap, di: int): int { DescAddr(h, di) + 8 }

  function Idx(h: Heap, a: int): int { (a - h.start) / PAGE }

  predicate InDescs(h: Heap, x: int) { h.descs <= x < h.descs + 24 * DESC_CNT }

  predicate Shape(h: Heap) {
    && |h.free| == DESC_CNT
    && h.start % PAGE == 0 && 0 < h.start && h.start + PAGE * |h.bits| < MEMORY_SIZE - PAGE
    && 0 <= h.descs < MEMORY_SIZE - PAGE
    && (h.descs + 24 * DESC_CNT <= h.start || h.start + PAGE * |h.bits| <= h.descs)
  }

  /** The free blocks among the first n of an arena. */
  function CountFree(xs: seq<Elem>, a: int, di: int, n: nat): nat {
    if n == 0 then 0 else CountFree(xs, a, di, n - 1) + if Block(a, di, n - 1) in xs then 1 else 0
  }

  /** An address of an arena's first page. */
  predicate IsArenaPage(h: Heap, a: int) {
    a % PAGE == 0 && 0 <= Idx(h, a) < |h.bits| && a == h.start + PAGE * Idx(h, a)
  }

  /** The header of a small arena: its descriptor, the number of its free blocks, not large. */
  ghost predicate SmallHeader(h: Heap, a: int)
    requires |h.free| == DESC_CNT && a in h.small && 0 <= h.small[a] < DESC_CNT
  {
    var di := h.small[a];
    && Peek(h.words, a) == DescAddr(h, di) && Peek(h.words, a + 8) == 0
    && Peek(h.words, a + 4) == CountFree(h.free[di], a, di, Per(di))
  }

  /** Each block of a small arena is either free or live, and not all of them are free. */
  ghost predicate SmallBlocks(h: Heap, a: int, full: set<int>)
    requires |h.free| == DESC_CNT && a in h.small && 0 <= h.small[a] < DESC_CNT
  {
    var di := h.small[a];
    && (CountFree(h.free[di], a, di, Per(di)) < Per(di) || a in full)
    && forall k :: 0 <= k < Per(di) ==> (Block(a, di, k) in h.free[di] <==> Block(a, di, k) !in h.live)
  }

  ghost predicate SmallOk(h: Heap, a: int, full: set<int>)
    requires |h.free| == DESC_CNT && a in h.small
  {
    && IsArenaPage(h, a) && 0 <= h.small[a] < DESC_CNT
    && Idx(h, a) in h.owner && h.owner[Idx(h, a)] == a
    && SmallHeader(h, a) && SmallBlocks(h, a, full)
  }

  ghost predicate LargeOk(h: Heap, a: int)
    requires a in h.large
  {
    && IsArenaPage(h, a) && h.large[a] > 0 && Idx(h, a) + h.large[a] <= |h.bits|
    && (forall i :: Idx(h, a) <= i < Idx(h, a) + h.large[a] ==> i in h.owner && h.owner[i] == a)
    && Peek(h.words, a) == 0 && Peek(h.words, a + 4) == h.large[a] && Peek(h.words, a + 8) == 1
    && a + HEADER in h.live
  }

  ghost predicate FreeOk(h: Heap)
    requires |h.free| == DESC_CNT
  {
    forall di, x :: 0 <= di < DESC_CNT && x in h.free[di] ==>
      PageOf(x) in h.small && h.small[PageOf(x)] == di && IsBlockAt(x, PageOf(x), di)
  }

  /** The bytes a live pointer may use. */
  function Cap(h: Heap, p: int): int {
    if PageOf(p) in h.large then PAGE * h.large[PageOf(p)] - HEADER
    else if PageOf(p) in h.small then Size(h.small[PageOf(p)])
    else 0
  }

  ghost predicate LiveOk(h: Heap) {
    forall p :: p in h.live ==>
      && 0 < h.live[p] <= Cap(h, p)
      && if PageOf(p) in h.large then p == PageOf(p) + HEADER
         else PageOf(p) in h.small && IsBlockAt(p, PageOf(p), h.small[PageOf(p)])
  }

  ghost predicate OwnerOk(h: Heap) {
    && (forall i :: i in h.owner || i in h.foreign <==> 0 <= i < |h.bits| && h.bits[i])
    && (forall i :: i in h.owner ==> i !in h.foreign)
    && (forall i :: i in h.owner ==>
          || (h.owner[i] in h.small && Idx(h, h.owner[i]) == i)
          || (h.owner[i] in h.large && Idx(h, h.owner[i]) <= i < Idx(h, h.owner[i]) + h.large[h.owner[i]]))
    && h.small.Keys !! h.large.Keys
  }

  ghost predicate DescsOk(h: Heap)
    requires Shape(h)
  {
    forall di :: 0 <= di < DESC_CNT ==>
      && Peek(h.words, DescAddr(h, di)) == Size(di) && Peek(h.words, DescAddr(h, di) + 4) == Per(di)
      && IsList(h.words, ListAddr(h, di), h.free[di])
  }

  /** The invariant; an arena in `full` may have all its blocks free. */
  ghost predicate Inv(h: Heap, full: set<int>) {
    && Shape(h) && FreeOk(h) && LiveOk(h) && OwnerOk(h) && DescsOk(h)
    && (forall a :: a in h.small ==> SmallOk(h, a, full))
    && (forall a :: a in h.large ==> LargeOk(h, a))
  }

  // ---------- what the invariant means ----------

  /** The page number of an address inside a run of n pages. */
  lemma PageNumber(start: int, i: int, n: nat, x: int)
    requires start + PAGE * i <= x < start + PAGE * (i + n)
    ensures i <= (x - start) / PAGE < i + n
  {
  }

  /** The pages from which a live pointer's bytes come belong to its arena. */
  lemma LiveInArena(h: Heap, p: int, x: int, full: set<int>)
    requires Inv(h, full) && p in h.live && p <= x < p + Cap(h, p)
    ensures var i := (x - h.start) / PAGE; i in h.owner && h.owner[i] == PageOf(p)
    ensures PageOf(p) + HEADER <= p
  {
    hide FreeOk, OwnerOk, DescsOk, PageOf, IsBlockAt;
    var a := PageOf(p);
    if a in h.large {
      assert LargeOk(h, a);
      hide LargeOk, Idx;
      PageNumber(h.start, Idx(h, a), h.large[a], x);
      assert LargeOk(h, a);
    } else {
      assert SmallOk(h, a, full);
      BlockFacts(p, a, h.small[a]);
      hide SmallOk;
      PageNumber(h.start, Idx(h, a), 1, x);
    }
  }

  /** Live blocks are at least as large as requested, and no two of them share a byte. */
  lemma LiveBlocksDisjoint(h: Heap, p: int, q: int, x: int)
    requires Inv(h, {}) && p in h.live && q in h.live && p != q
    ensures h.live[p] <= Cap(h, p)
    ensures !(p <= x < p + Cap(h, p) && q <= x < q + Cap(h, q))
  {
    if p <= x < p + Cap(h, p) && q <= x < q + Cap(h, q) {
      LiveInArena(h, p, x, {});
      LiveInArena(h, q, x, {});
      TwoBlocks(p, q, PageOf(p), h.small[PageOf(p)]);
      assert false;
    }
  }

  lemma {:induction false} CountBounds(xs: seq<Elem>, a: int, di: int, n: nat)
    ensures CountFree(xs, a, di, n) <= n
    ensures CountFree(xs, a, di, n) == n <==> forall k :: 0 <= k < n ==> Block(a, di, k) in xs
  {
    if n > 0 {
      CountBounds(xs, a, di, n - 1);
      if CountFree(xs, a, di, n) == n {
        forall k | 0 <= k < n ensures Block(a, di, k) in xs {}
      }
    }
  }

  /** Every arena is there for the sake of a live pointer. */
  lemma ArenaHasLive(h: Heap, a: int) returns (p: int)
    requires a in h.small || a in h.large
    requires Inv(h, {})
    ensures p in h.live
  {
    if a in h.large {
      assert LargeOk(h, a);
      p := a + HEADER;
    } else {
      assert SmallOk(h, a, {});
      var di := h.small[a];
      CountBounds(h.free[di], a, di, Per(di));
      var k :| 0 <= k < Per(di) && Block(a, di, k) !in h.free[di];
      p := Block(a, di, k);
    }
  }

  lemma FreeListHasArena(h: Heap, di: int)
    requires 0 <= di < DESC_CNT
    requires Inv(h, {})
    ensures h.free[di] == [] || PageOf(h.free[di][0]) in h.small
  {
  }

  /** Freeing everything gives everything back: with no live pointer there is no arena, every free
      list is empty, and exactly the pages that others have taken keep their bits. */
  lemma NothingLiveNothingHeld(h: Heap)
    requires Inv(h, {}) && h.live == map[]
    ensures h.small == map[] && h.large == map[]
    ensures forall di :: 0 <= di < DESC_CNT ==> h.free[di] == []
    ensures forall i :: 0 <= i < |h.bits| ==> (h.bits[i] <==> i in h.foreign)
  {
    forall a ensures a !in h.small && a !in h.large {
      if a in h.small || a in h.large {
        var p := ArenaHasLive(h, a);
      }
    }
    forall di | 0 <= di < DESC_CNT ensures h.free[di] == [] {
      FreeListHasArena(h, di);
    }
  }

  /** Two pages are the same or do not overlap. */
  lemma PagesApart(a: int, b: int)
    requires a % PAGE == 0 && b % PAGE == 0
    ensures a == b || a + PAGE <= b || b + PAGE <= a
  {
  }

  // ---------- zones of memory ----------

  /** Every address belongs to one zone: the size words or the free-list ends of a descriptor, an
      arena's header, one of its blocks, the payload of a large arena, or somebody else's page. */
  datatype Zone =
    | DescWords(i: int) | Ends(i: int) | Header(a: int) | InBlock(b: int) | Payload(a: int)
    | Foreign(i: int) | Outside

  function ZoneOf(h: Heap, x: int): Zone {
    if InDescs(h, x) then
      if (x - h.descs) % 24 < 8 then DescWords((x - h.descs) / 24) else Ends((x - h.descs) / 24)
    else
      var i := (x - h.start) / PAGE;
      if i !in h.owner then if i in h.foreign then Foreign(i) else Outside
      else
        var a := h.owner[i];
        if x < a + HEADER then Header(a)
        else if a in h.small then InBlock(Block(a, h.small[a], (x - a - HEADER) / Size(h.small[a])))
        else Payload(a)
  }

  /** Memory m has the words of h except in the given zones. */
  ghost predicate KeptOutside(h: Heap, m: Words, zones: set<Zone>) {
    forall x :: ZoneOf(h, x) !in zones ==> Peek(m, x) == Peek(h.words, x)
  }

  /** A block of an arena of descriptor di. */
  predicate IsArenaBlock(h: Heap, di: int, b: int) {
    0 <= di < DESC_CNT && PageOf(b) in h.small && h.small[PageOf(b)] == di && IsBlockAt(b, PageOf(b), di)
  }

  lemma ArenaFacts(h: Heap, a: int, full: set<int>)
    requires a in h.small || a in h.large
    requires Inv(h, full)
    ensures Shape(h) && IsArenaPage(h, a) && Idx(h, a) in h.owner && h.owner[Idx(h, a)] == a
    ensures a % PAGE == 0 && h.start <= a && a + PAGE <= h.start + PAGE * |h.bits|
    ensures a in h.small ==> SmallOk(h, a, full) && a !in h.large
    ensures a in h.large ==> LargeOk(h, a) && a !in h.small
  {
    hide FreeOk, LiveOk, DescsOk;
    assert (a in h.small ==> SmallOk(h, a, full)) && (a in h.large ==> LargeOk(h, a));
  }

  /** The words of a page that others have taken. */
  lemma ForeignZone(h: Heap, x: int, full: set<int>)
    requires (x - h.start) / PAGE in h.foreign
    requires Inv(h, full)
    ensures ZoneOf(h, x) == Foreign((x - h.start) / PAGE)
  {
    hide FreeOk, LiveOk, DescsOk, SmallOk, LargeOk;
  }

  lemma HeaderZone(h: Heap, a: int, x: int, full: set<int>)
    requires (a in h.small || a in h.large) && a <= x < a + HEADER
    requires Inv(h, full)
    ensures ZoneOf(h, x) == Header(a)
  {
    hide Inv;
    ArenaFacts(h, a, full);
    PageNumber(h.start, Idx(h, a), 1, x);
  }

  lemma BlockIndex(a: int, di: int, k: int, x: int)
    requires 0 <= di < DESC_CNT && Block(a, di, k) <= x < Block(a, di, k) + Size(di)
    ensures (x - a - HEADER) / Size(di) == k
  {
    if di <= 0 {} else if di == 1 {} else if di == 2 {} else if di == 3 {} else if di == 4 {} else if di == 5 {} else {}
  }

  lemma BlockZone(h: Heap, di: int, b: int, x: int, full: set<int>)
    requires IsArenaBlock(h, di, b) && b <= x < b + Size(di)
    requires Inv(h, full)
    ensures ZoneOf(h, x) == InBlock(b)
  {
    hide Inv, PageOf, Size, Per;
    var a := PageOf(b);
    ArenaFacts(h, a, full);
    BlockFacts(b, a, di);
    PageNumber(h.start, Idx(h, a), 1, x);
    var k :| 0 <= k < Per(di) && b == Block(a, di, k);
    BlockIndex(a, di, k, x);
  }

  lemma PayloadZone(h: Heap, a: int, x: int, full: set<int>)
    requires a in h.large && a + HEADER <= x < a + PAGE * h.large[a]
    requires Inv(h, full)
    ensures ZoneOf(h, x) == Payload(a)
  {
    hide Inv;
    ArenaFacts(h, a, full);
    PageNumber(h.start, Idx(h, a), h.large[a], x);
  }

  lemma DescZone(h: Heap, i: int, x: int)
    requires 0 <= i < DESC_CNT
    ensures DescAddr(h, i) <= x < DescAddr(h, i) + 8 ==> ZoneOf(h, x) == DescWords(i)
    ensures DescAddr(h, i) + 8 <= x < DescAddr(h, i) + 24 ==> ZoneOf(h, x) == Ends(i)
  {
  }

  /** The zones a list operation on descriptor di writes: the ends, the free blocks, and b. */
  function ListZones(h: Heap, di: int, b: int): set<Zone>
    requires 0 <= di < |h.free|
  {
    {Ends(di), InBlock(b)} + set x | x in h.free[di] :: InBlock(x)
  }

  lemma FreeIsArenaBlock(h: Heap, di: int, full: set<int>)
    requires Shape(h) && 0 <= di < DESC_CNT
    requires Inv(h, full)
    ensures forall x :: x in h.free[di] ==> IsArenaBlock(h, di, x)
  {
    hide LiveOk, OwnerOk, DescsOk, SmallOk, LargeOk, PageOf, IsBlockAt;
  }

  lemma ListIsThere(h: Heap, di: int, full: set<int>)
    requires Shape(h) && 0 <= di < DESC_CNT
    requires Inv(h, full)
    ensures IsList(h.words, ListAddr(h, di), h.free[di])
    ensures Peek(h.words, DescAddr(h, di)) == Size(di) && Peek(h.words, DescAddr(h, di) + 4) == Per(di)
  {
    hide LiveOk, OwnerOk, FreeOk, SmallOk, LargeOk, PageOf, IsBlockAt, IsList;
  }

  /** Writing link words of the list's elements and of block b stays inside those zones. */
  lemma LinksStayInZones(h: Heap, m: Words, di: int, b: int, full: set<int>)
    requires Shape(h) && IsArenaBlock(h, di, b)
    requires OnlyElems(h.words, m, Nodes(ListAddr(h, di), h.free[di]) + [b])
    requires Inv(h, full)
    ensures KeptOutside(h, m, ListZones(h, di, b))
  {
    hide Inv, ZoneOf, ListZones, PageOf, IsBlockAt;
    assert 0 <= di < DESC_CNT;
    var xs := h.free[di];
    var nodes := Nodes(ListAddr(h, di), xs) + [b];
    forall x | ZoneOf(h, x) !in ListZones(h, di, b) ensures Peek(m, x) == Peek(h.words, x) {
      forall j | 0 <= j < |nodes| ensures x != nodes[j] && x != nodes[j] + 4 {
        NodeZone(h, di, b, j, full);
      }
    }
  }

  lemma NodeZone(h: Heap, di: int, b: int, j: nat, full: set<int>)
    requires Shape(h) && IsArenaBlock(h, di, b) && j < |h.free[di]| + 3
    requires Inv(h, full)
    ensures var n := (Nodes(ListAddr(h, di), h.free[di]) + [b])[j];
            ZoneOf(h, n) in ListZones(h, di, b) && ZoneOf(h, n + 4) in ListZones(h, di, b)
  {
    hide Inv, ZoneOf;
    BlockNodeZone(h, di, b, b, full);
    EndsZone(h, di, b);
    var xs := h.free[di];
    if 0 < j <= |xs| {
      assert (Nodes(ListAddr(h, di), xs) + [b])[j] == xs[j - 1];
      BlockNodeZone(h, di, b, xs[j - 1], full);
    }
  }

  lemma EndsZone(h: Heap, di: int, b: int)
    requires |h.free| == DESC_CNT && 0 <= di < DESC_CNT
    ensures forall x :: ListAddr(h, di) <= x < ListAddr(h, di) + 16 ==> ZoneOf(h, x) in ListZones(h, di, b)
  {
    hide ZoneOf;
    forall x | ListAddr(h, di) <= x < ListAddr(h, di) + 16 ensures ZoneOf(h, x) in ListZones(h, di, b) {
      DescZone(h, di, x);
    }
  }

  lemma BlockNodeZone(h: Heap, di: int, b: int, n: int, full: set<int>)
    requires Shape(h) && IsArenaBlock(h, di, b) && (n == b || n in h.free[di])
    requires Inv(h, full)
    ensures ZoneOf(h, n) in ListZones(h, di, b) && ZoneOf(h, n + 4) in ListZones(h, di, b)
  {
    hide Inv, ZoneOf, Size, IsBlockAt, PageOf;
    FreeIsArenaBlock(h, di, full);
    SizeAtLeast16(di);
    BlockZone(h, di, n, n, full);
    BlockZone(h, di, n, n + 4, full);
  }

  // ---------- what is kept when a zone is not written ----------

  lemma HeaderKept(h: Heap, m: Words, zones: set<Zone>, a: int, full: set<int>)
    requires (a in h.small || a in h.large) && Header(a) !in zones && KeptOutside(h, m, zones)
    requires Inv(h, full)
    ensures forall x :: a <= x < a + HEADER ==> Peek(m, x) == Peek(h.words, x)
  {
    hide Inv, ZoneOf;
    forall x | a <= x < a + HEADER ensures Peek(m, x) == Peek(h.words, x) {
      HeaderZone(h, a, x, full);
    }
  }

  /** The list of a descriptor and its size words, when neither its ends nor its blocks are written. */
  lemma DescKept(h: Heap, m: Words, zones: set<Zone>, i: int, full: set<int>)
    requires Shape(h) && 0 <= i < DESC_CNT && KeptOutside(h, m, zones)
    requires DescWords(i) !in zones
    requires Inv(h, full)
    ensures Peek(m, DescAddr(h, i)) == Size(i) && Peek(m, DescAddr(h, i) + 4) == Per(i)
    ensures Ends(i) !in zones && (forall c :: c in h.free[i] ==> InBlock(c) !in zones)
            ==> IsList(m, ListAddr(h, i), h.free[i])
  {
    hide Inv, ZoneOf, IsList, Peek, Size, Per;
    ListIsThere(h, i, full);
    DescZone(h, i, DescAddr(h, i));
    DescZone(h, i, DescAddr(h, i) + 4);
    if Ends(i) !in zones && forall c :: c in h.free[i] ==> InBlock(c) !in zones {
      var xs := h.free[i];
      var nodes := Nodes(ListAddr(h, i), xs);
      FreeIsArenaBlock(h, i, full);
      forall j | 0 <= j < |xs| + 2
        ensures Peek(m, nodes[j]) == Peek(h.words, nodes[j]) && Peek(m, nodes[j] + 4) == Peek(h.words, nodes[j] + 4)
      {
        if j == 0 || j == |xs| + 1 {
          DescZone(h, i, nodes[j]);
          DescZone(h, i, nodes[j] + 4);
        } else {
          assert nodes[j] == xs[j - 1] && xs[j - 1] in xs;
          SizeAtLeast16(i);
          BlockZone(h, i, nodes[j], nodes[j], full);
          BlockZone(h, i, nodes[j], nodes[j] + 4, full);
        }
      }
      UntouchedList(h.words, m, ListAddr(h, i), xs);
    }
  }

  lemma SizeAtLeast16(di: int)
    ensures 16 <= Size(di) <= 1024
  {
  }

  /** The bytes of a live pointer. */
  lemma LiveKept(h: Heap, m: Words, zones: set<Zone>, p: int, full: set<int>)
    requires p in h.live && KeptOutside(h, m, zones) && InBlock(p) !in zones && Payload(PageOf(p)) !in zones
    requires Inv(h, full)
    ensures forall x :: p <= x < p + Cap(h, p) ==> Peek(m, x) == Peek(h.words, x)
  {
    LiveFacts(h, p, full);
    hide Inv, ZoneOf, Peek, PageOf, LiveOk;
    forall x | p <= x < p + Cap(h, p) ensures Peek(m, x) == Peek(h.words, x) {
      if PageOf(p) in h.large {
        PayloadZone(h, PageOf(p), x, full);
      } else {
        BlockZone(h, h.small[PageOf(p)], p, x, full);
      }
    }
  }

  lemma LiveFacts(h: Heap, p: int, full: set<int>)
    requires p in h.live
    requires Inv(h, full)
    ensures if PageOf(p) in h.large then p == PageOf(p) + HEADER && Cap(h, p) == PAGE * h.large[PageOf(p)] - HEADER
            else PageOf(p) in h.small && IsArenaBlock(h, h.small[PageOf(p)], p) && Cap(h, p) == Size(h.small[PageOf(p)])
  {
    hide FreeOk, DescsOk, OwnerOk;
    assert PageOf(p) in h.small ==> SmallOk(h, PageOf(p), full);
  }
}
