/** The elementary steps of `sys_malloc` and `sys_free` on the heap's state, each with the lemma
    that it keeps the invariant of Arena.dfy. */
module ArenaSteps {
  import opened Lists
  import opened Arena
  import Bitmaps

  // ---------- counting ----------

  lemma {:induction false} CountSame(xs: seq<Elem>, ys: seq<Elem>, a: int, di: int, n: nat)
    requires forall k :: 0 <= k < n ==> (Block(a, di, k) in xs <==> Block(a, di, k) in ys)
    ensures CountFree(xs, a, di, n) == CountFree(ys, a, di, n)
  {
    if n > 0 {
      CountSame(xs, ys, a, di, n - 1);
    }
  }

  /** One block of the arena more. */
  lemma {:induction false} CountOneMore(xs: seq<Elem>, ys: seq<Elem>, a: int, di: int, n: nat, j: nat)
    requires j < n && Block(a, di, j) !in xs && Block(a, di, j) in ys
    requires forall k :: 0 <= k < n && k != j ==> (Block(a, di, k) in xs <==> Block(a, di, k) in ys)
    ensures CountFree(ys, a, di, n) == CountFree(xs, a, di, n) + 1
  {
    if j == n - 1 {
      CountSame(xs, ys, a, di, n - 1);
    } else {
      CountOneMore(xs, ys, a, di, n - 1, j);
    }
  }

  lemma BlockInjective(a: int, di: int, k: int, l: int)
    requires k != l
    ensures Block(a, di, k) != Block(a, di, l)
  {
    BlocksApart(a, di, if k < l then k else l, if k < l then l else k);
    SizeAtLeast16(di);
  }

  /** Adding block p of arena a to a list changes the counts of that arena only. */
  lemma CountsAfterAdding(xs: seq<Elem>, ys: seq<Elem>, p: int, a: int, di: int, c: int)
    requires 0 <= di < DESC_CNT && a % PAGE == 0 && c % PAGE == 0 && IsBlockAt(p, a, di)
    requires p !in xs && forall x :: x in ys <==> x in xs || x == p
    ensures CountFree(ys, c, di, Per(di)) == CountFree(xs, c, di, Per(di)) + if c == a then 1 else 0
  {
    var j :| 0 <= j < Per(di) && p == Block(a, di, j);
    hide Per, PageOf;
    if c == a {
      forall k | 0 <= k < Per(di) && k != j ensures Block(a, di, k) in xs <==> Block(a, di, k) in ys {
        BlockInjective(a, di, k, j);
      }
      CountOneMore(xs, ys, a, di, Per(di), j);
    } else {
      forall k | 0 <= k < Per(di) ensures Block(c, di, k) in xs <==> Block(c, di, k) in ys {
        BlockBounds(a, di, j);
        BlockBounds(c, di, k);
        PagesApart(a, c);
      }
      CountSame(xs, ys, c, di, Per(di));
    }
  }

  // ---------- a block is taken from or given back to a free list ----------

  /** Block p enters ys if it was not in xs, and leaves it otherwise; nothing else does. */
  ghost predicate Toggled(xs: seq<Elem>, ys: seq<Elem>, p: int) {
    && (p in xs <==> p !in ys)
    && forall x :: x != p ==> (x in xs <==> x in ys)
  }

  ghost predicate LiveToggled(live: map<int, int>, live': map<int, int>, p: int, size: int) {
    && (p in live <==> p !in live') && (p in live' ==> 0 < live'[p] <= size)
    && forall x :: x != p ==> (x in live <==> x in live') && (x in live ==> live'[x] == live[x])
  }

  function Delta(ys: seq<Elem>, p: int): int { if p in ys then 1 else -1 }

  /** Memory m differs from h's as one list operation with block p and one update of its arena's
      counter make it differ. */
  ghost predicate BlockMoved(h: Heap, m: Words, di: int, p: int, ys: seq<Elem>)
    requires Shape(h) && 0 <= di < DESC_CNT
  {
    var a := PageOf(p);
    && KeptOutside(h, m, ListZones(h, di, p) + {Header(a)})
    && IsList(m, ListAddr(h, di), ys)
    && Peek(m, a) == Peek(h.words, a) && Peek(m, a + 8) == Peek(h.words, a + 8)
    && Peek(m, a + 4) == Peek(h.words, a + 4) + Delta(ys, p)
  }

  ghost predicate Moves(h: Heap, m: Words, di: int, p: int, ys: seq<Elem>, live': map<int, int>)
    requires Shape(h)
  {
    && IsArenaBlock(h, di, p) && BlockMoved(h, m, di, p, ys)
    && Toggled(h.free[di], ys, p) && LiveToggled(h.live, live', p, Size(di))
  }

  function Moved(h: Heap, m: Words, di: int, ys: seq<Elem>, live': map<int, int>): Heap
    requires 0 <= di < |h.free|
  {
    h.(words := m, free := h.free[di := ys], live := live')
  }

  lemma ArenaBlockDi(h: Heap, di: int, p: int)
    requires IsArenaBlock(h, di, p)
    ensures 0 <= di < DESC_CNT && PageOf(p) in h.small && h.small[PageOf(p)] == di && IsBlockAt(p, PageOf(p), di)
  {
  }

  lemma FreeListsDiffer(h: Heap, di: int, p: int, i: int, full: set<int>)
    requires Shape(h) && IsArenaBlock(h, di, p) && 0 <= i < DESC_CNT && i != di
    requires Inv(h, full)
    ensures forall c :: c in h.free[i] ==> InBlock(c) !in ListZones(h, di, p)
  {
    hide Inv, PageOf, IsBlockAt;
    FreeIsArenaBlock(h, di, full);
    FreeIsArenaBlock(h, i, full);
    forall c | c in h.free[i] ensures InBlock(c) !in ListZones(h, di, p) {
      assert IsArenaBlock(h, i, c) && (c in h.free[di] ==> IsArenaBlock(h, di, c));
    }
  }

  /** The descriptors after the move. */
  lemma MoveDescs(h: Heap, m: Words, di: int, p: int, ys: seq<Elem>, full: set<int>)
    requires Shape(h) && IsArenaBlock(h, di, p) && BlockMoved(h, m, di, p, ys)
    requires Inv(h, full)
    ensures DescsOk(h.(words := m, free := h.free[di := ys]))
  {
    hide Inv, IsArenaBlock, IsList, Peek, Size, Per, KeptOutside;
    ArenaBlockDi(h, di, p);
    var zones := ListZones(h, di, p) + {Header(PageOf(p))};
    forall i | 0 <= i < DESC_CNT
      ensures Peek(m, DescAddr(h, i)) == Size(i) && Peek(m, DescAddr(h, i) + 4) == Per(i)
      ensures i != di ==> IsList(m, ListAddr(h, i), h.free[i])
    {
      DescKept(h, m, zones, i, full);
      if i != di {
        FreeListsDiffer(h, di, p, i, full);
      }
    }
  }

  /** The headers of other arenas are not written. */
  lemma MoveOtherHeader(h: Heap, m: Words, di: int, p: int, ys: seq<Elem>, c: int, full: set<int>)
    requires Shape(h) && IsArenaBlock(h, di, p) && BlockMoved(h, m, di, p, ys) && c != PageOf(p)
             && (c in h.small || c in h.large)
    requires Inv(h, full)
    ensures Peek(m, c) == Peek(h.words, c) && Peek(m, c + 4) == Peek(h.words, c + 4)
            && Peek(m, c + 8) == Peek(h.words, c + 8)
  {
    hide Inv, IsArenaBlock, IsList, Peek, Size, Per, KeptOutside;
    ArenaBlockDi(h, di, p);
    HeaderKept(h, m, ListZones(h, di, p) + {Header(PageOf(p))}, c, full);
  }

  lemma MoveCount(h: Heap, m: Words, di: int, p: int, ys: seq<Elem>, live': map<int, int>, c: int, full: set<int>)
    requires Shape(h) && Moves(h, m, di, p, ys, live') && c in h.small && 0 <= h.small[c] < DESC_CNT
    requires Inv(h, full)
    ensures 0 <= di < DESC_CNT
    ensures var dc := h.small[c];
            CountFree(Moved(h, m, di, ys, live').free[dc], c, dc, Per(dc))
            == CountFree(h.free[dc], c, dc, Per(dc)) + if c == PageOf(p) then Delta(ys, p) else 0
  {
    hide Inv, IsList, KeptOutside, Size, Per, PageOf, IsBlockAt, IsArenaBlock, BlockMoved;
    ArenaBlockDi(h, di, p);
    ArenaFacts(h, c, full);
    ArenaFacts(h, PageOf(p), full);
    if h.small[c] == di {
      if p in ys {
        CountsAfterAdding(h.free[di], ys, p, PageOf(p), di, c);
      } else {
        CountsAfterAdding(ys, h.free[di], p, PageOf(p), di, c);
      }
    }
  }

  lemma MoveBlocks(h: Heap, m: Words, di: int, p: int, ys: seq<Elem>, live': map<int, int>, c: int, full: set<int>)
    requires Shape(h) && Moves(h, m, di, p, ys, live') && c in h.small && 0 <= h.small[c] < DESC_CNT
             && full <= {PageOf(p)}
    requires Inv(h, full)
    ensures 0 <= di < DESC_CNT
    ensures SmallBlocks(Moved(h, m, di, ys, live'), c, if p in ys then {PageOf(p)} else {})
  {
    hide Inv, IsList, KeptOutside, Size, PageOf, IsBlockAt, IsArenaBlock, BlockMoved;
    ArenaBlockDi(h, di, p);
    ArenaFacts(h, c, full);
    ArenaFacts(h, PageOf(p), full);
    MoveCount(h, m, di, p, ys, live', c, full);
    var dc := h.small[c];
    CountBounds(h.free[dc], c, dc, Per(dc));
    var h' := Moved(h, m, di, ys, live');
    forall k | 0 <= k < Per(dc) ensures Block(c, dc, k) in h'.free[dc] <==> Block(c, dc, k) !in h'.live {
      assert Block(c, dc, k) in h.free[dc] <==> Block(c, dc, k) !in h.live;
      if Block(c, dc, k) == p {
        BlockBounds(c, dc, k);
      }
    }
  }

  lemma MoveSmall(h: Heap, m: Words, di: int, p: int, ys: seq<Elem>, live': map<int, int>, c: int, full: set<int>)
    requires Shape(h) && Moves(h, m, di, p, ys, live') && c in h.small && full <= {PageOf(p)}
    requires Inv(h, full)
    ensures 0 <= di < DESC_CNT
    ensures SmallOk(Moved(h, m, di, ys, live'), c, if p in ys then {PageOf(p)} else {})
  {
    hide Inv, IsList, KeptOutside, Size, PageOf, IsBlockAt, IsArenaBlock, SmallBlocks, Toggled, LiveToggled;
    ArenaBlockDi(h, di, p);
    ArenaFacts(h, c, full);
    MoveBlocks(h, m, di, p, ys, live', c, full);
    MoveCount(h, m, di, p, ys, live', c, full);
    if c != PageOf(p) {
      MoveOtherHeader(h, m, di, p, ys, c, full);
    }
  }

  lemma MoveLarge(h: Heap, m: Words, di: int, p: int, ys: seq<Elem>, live': map<int, int>, c: int, full: set<int>)
    requires Shape(h) && Moves(h, m, di, p, ys, live') && c in h.large
    requires Inv(h, full)
    ensures 0 <= di < DESC_CNT
    ensures LargeOk(Moved(h, m, di, ys, live'), c)
  {
    hide Inv, IsList, KeptOutside, Size, IsBlockAt, IsArenaBlock, BlockMoved, Toggled;
    ArenaBlockDi(h, di, p);
    ArenaFacts(h, c, full);
    ArenaFacts(h, PageOf(p), full);
    MoveOtherHeader(h, m, di, p, ys, c, full);
  }

  lemma MoveLists(h: Heap, m: Words, di: int, p: int, ys: seq<Elem>, live': map<int, int>, full: set<int>)
    requires Shape(h) && Moves(h, m, di, p, ys, live')
    requires Inv(h, full)
    ensures 0 <= di < DESC_CNT
    ensures FreeOk(Moved(h, m, di, ys, live')) && LiveOk(Moved(h, m, di, ys, live'))
  {
    hide OwnerOk, DescsOk, SmallOk, LargeOk, IsList, KeptOutside, Size, IsBlockAt, BlockMoved, PageOf;
    ArenaFacts(h, PageOf(p), full);
    assert FreeOk(Moved(h, m, di, ys, live'));
  }

  /** A block that moves between its free list and the live pointers leaves the invariant; only
      an arena that got a block back can have all its blocks free. */
  lemma MoveKeepsInv(h: Heap, m: Words, di: int, p: int, ys: seq<Elem>, live': map<int, int>, full: set<int>)
    requires Shape(h) && Moves(h, m, di, p, ys, live') && full <= {PageOf(p)}
    requires Inv(h, full)
    ensures 0 <= di < DESC_CNT
    ensures Inv(Moved(h, m, di, ys, live'), if p in ys then {PageOf(p)} else {})
  {
    hide Inv, FreeOk, LiveOk, OwnerOk, DescsOk, SmallOk, LargeOk, PageOf, Moves, BlockMoved, IsArenaBlock;
    MovesParts(h, m, di, p, ys, live');
    ArenaBlockDi(h, di, p);
    var h' := Moved(h, m, di, ys, live');
    var full' := if p in ys then {PageOf(p)} else {};
    MoveLists(h, m, di, p, ys, live', full);
    MoveDescs(h, m, di, p, ys, full);
    DescsIgnoreLive(h.(words := m, free := h.free[di := ys]), h');
    InvParts(h, full);
    SameOwners(h, h');
    forall c | c in h.small ensures SmallOk(h', c, full') {
      MoveSmall(h, m, di, p, ys, live', c, full);
    }
    forall c | c in h.large ensures LargeOk(h', c) {
      MoveLarge(h, m, di, p, ys, live', c, full);
    }
    MakeInv(h', full');
  }

  lemma DescsIgnoreLive(h: Heap, h': Heap)
    requires Shape(h) && Shape(h') && h'.words == h.words && h'.free == h.free && h'.descs == h.descs && DescsOk(h)
    ensures DescsOk(h')
  {
    hide IsList;
  }

  lemma MovesParts(h: Heap, m: Words, di: int, p: int, ys: seq<Elem>, live': map<int, int>)
    requires Shape(h) && Moves(h, m, di, p, ys, live')
    ensures IsArenaBlock(h, di, p) && BlockMoved(h, m, di, p, ys)
  {
  }

  lemma InvParts(h: Heap, full: set<int>)
    requires Inv(h, full)
    ensures Shape(h) && FreeOk(h) && LiveOk(h) && OwnerOk(h) && DescsOk(h)
  {
    hide FreeOk, LiveOk, OwnerOk, DescsOk, SmallOk, LargeOk;
  }

  lemma MakeInv(h: Heap, full: set<int>)
    requires Shape(h) && FreeOk(h) && LiveOk(h) && OwnerOk(h) && DescsOk(h)
    requires forall a :: a in h.small ==> SmallOk(h, a, full)
    requires forall a :: a in h.large ==> LargeOk(h, a)
    ensures Inv(h, full)
  {
    hide FreeOk, LiveOk, OwnerOk, DescsOk, SmallOk, LargeOk;
  }

  lemma SameOwners(h: Heap, h': Heap)
    requires OwnerOk(h) && h'.foreign == h.foreign && h'.owner == h.owner && h'.bits == h.bits && h'.small == h.small
             && h'.large == h.large && h'.start == h.start
    ensures OwnerOk(h')
  {
  }

  /** No element occurs twice in a list. */
  lemma ListDistinct(m: Words, list: Elem, xs: seq<Elem>)
    requires IsList(m, list, xs)
    ensures forall i, j :: 0 <= i < j < |xs| ==> xs[i] != xs[j]
  {
    var nodes := Nodes(list, xs);
    forall i, j | 0 <= i < j < |xs| ensures xs[i] != xs[j] {
      assert nodes[i + 1] == xs[i] && nodes[j + 1] == xs[j] && Sep(nodes[i + 1], nodes[j + 1]);
    }
  }
}
