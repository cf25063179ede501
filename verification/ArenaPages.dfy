/** The steps of `sys_malloc` and `sys_free` that take pages into the heap and give them back, each
    with the lemma that it keeps the invariant of Arena.dfy. */
module ArenaPages {
  import opened Common
  import opened Lists
  import opened Arena
  import opened ArenaSteps

  /** a is the address of the first of n free pages. */
  predicate IsRun(h: Heap, a: int, n: int) {
    IsArenaPage(h, a) && n > 0 && Idx(h, a) + n <= |h.bits| && forall i :: Idx(h, a) <= i < Idx(h, a) + n ==> !h.bits[i]
  }

  lemma RunHasNoArena(h: Heap, a: int, n: int)
    requires IsRun(h, a, n)
    requires Inv(h, {})
    ensures a !in h.small && a !in h.large
    ensures forall p :: p in h.live ==> PageOf(p) != a
    ensures forall di, x :: 0 <= di < DESC_CNT && x in h.free[di] ==> PageOf(x) != a
  {
    hide DescsOk, IsBlockAt, PageOf, SmallOk, LargeOk;
    if a in h.small || a in h.large {
      ArenaFacts(h, a, {});
      assert false;
    }
  }

  lemma RunUnowned(h: Heap, a: int, n: int, full: set<int>)
    requires IsRun(h, a, n)
    requires Inv(h, full)
    ensures forall i :: Idx(h, a) <= i < Idx(h, a) + n ==> i !in h.owner
  {
    hide FreeOk, LiveOk, DescsOk, SmallOk, LargeOk;
  }

  /** An address in a free page is in no zone. */
  lemma RunIsOutside(h: Heap, a: int, n: int, x: int)
    requires IsRun(h, a, n) && a <= x < a + PAGE * n
    requires Inv(h, {})
    ensures ZoneOf(h, x) == Outside
  {
    hide FreeOk, LiveOk, DescsOk, SmallOk, LargeOk;
    PageNumber(h.start, Idx(h, a), n, x);
  }

  // ---------- stores beside the heap's own words ----------

  lemma FreeNotLive(h: Heap, di: int, p: int, full: set<int>)
    requires |h.free| == DESC_CNT && IsArenaBlock(h, di, p)
    requires Inv(h, full)
    ensures 0 <= di < DESC_CNT && (p in h.free[di] <==> p !in h.live)
  {
    hide Inv, PageOf, SmallHeader;
    ArenaFacts(h, PageOf(p), full);
  }

  lemma LiveNotFree(h: Heap, q: int, di: int, full: set<int>)
    requires Shape(h) && q in h.live && 0 <= di < DESC_CNT
    requires Inv(h, full)
    ensures q !in h.free[di]
  {
    hide Inv, PageOf, IsBlockAt;
    FreeIsArenaBlock(h, di, full);
    if q in h.free[di] {
      assert IsArenaBlock(h, di, q);
      FreeNotLive(h, di, q, full);
    }
  }

  /** Zones with nothing of the heap's own in them: no size words, no list ends, no header, no free
      block. */
  ghost predicate Beside(h: Heap, zones: set<Zone>) {
    && (forall i :: DescWords(i) !in zones && Ends(i) !in zones)
    && (forall a :: Header(a) !in zones)
    && (forall di, b :: 0 <= di < |h.free| && b in h.free[di] ==> InBlock(b) !in zones)
  }

  /** Words of such zones change, and which of the other pages are taken. */
  ghost predicate BesideStep(h: Heap, h': Heap, zones: set<Zone>) {
    && h' == h.(words := h'.words, bits := h'.bits, foreign := h'.foreign) && |h'.bits| == |h.bits| && OwnerOk(h')
    && Beside(h, zones) && KeptOutside(h, h'.words, zones)
  }

  lemma BesideSmall(h: Heap, h': Heap, zones: set<Zone>, c: int)
    requires BesideStep(h, h', zones) && c in h.small
    requires Inv(h, {})
    ensures SmallOk(h', c, {})
  {
    hide Inv, OwnerOk, IsList, Size, Per, KeptOutside, IsBlockAt, PageOf, Peek, ZoneOf;
    ArenaFacts(h, c, {});
    HeaderKept(h, h'.words, zones, c, {});
  }

  lemma BesideLarge(h: Heap, h': Heap, zones: set<Zone>, c: int)
    requires BesideStep(h, h', zones) && c in h.large
    requires Inv(h, {})
    ensures LargeOk(h', c)
  {
    hide Inv, OwnerOk, IsList, Size, Per, KeptOutside, IsBlockAt, PageOf, Peek, ZoneOf, SmallOk;
    ArenaFacts(h, c, {});
    HeaderKept(h, h'.words, zones, c, {});
  }

  lemma BesideDescs(h: Heap, h': Heap, zones: set<Zone>)
    requires BesideStep(h, h', zones)
    requires Inv(h, {})
    ensures Shape(h') && DescsOk(h')
  {
    hide Inv, OwnerOk, IsList, Peek, Size, Per, KeptOutside, ZoneOf;
    InvParts(h, {});
    forall i | 0 <= i < DESC_CNT
      ensures Peek(h'.words, DescAddr(h, i)) == Size(i) && Peek(h'.words, DescAddr(h, i) + 4) == Per(i)
      ensures IsList(h'.words, ListAddr(h, i), h.free[i])
    {
      DescKept(h, h'.words, zones, i, {});
    }
  }

  lemma BesideBooks(h: Heap, h': Heap, zones: set<Zone>)
    requires BesideStep(h, h', zones)
    requires Inv(h, {})
    ensures Shape(h') && FreeOk(h') && LiveOk(h')
  {
    hide DescsOk, SmallOk, LargeOk, OwnerOk, IsBlockAt, Size, Per, PageOf, Peek, ZoneOf, KeptOutside;
    assert FreeOk(h') by { hide LiveOk; }
    assert LiveOk(h') by { hide FreeOk; }
  }

  lemma SameArenas(h: Heap, h': Heap, zones: set<Zone>)
    requires BesideStep(h, h', zones)
    ensures h'.small == h.small && h'.large == h.large && OwnerOk(h')
  {
  }

  /** No such step breaks the heap. */
  lemma BesideKeepsInv(h: Heap, h': Heap, zones: set<Zone>)
    requires BesideStep(h, h', zones)
    requires Inv(h, {})
    ensures Inv(h', {})
  {
    hide Inv, BesideStep, FreeOk, LiveOk, OwnerOk, DescsOk, SmallOk, LargeOk;
    SameArenas(h, h', zones);
    BesideDescs(h, h', zones);
    BesideBooks(h, h', zones);
    forall c | c in h'.small ensures SmallOk(h', c, {}) { BesideSmall(h, h', zones, c); }
    forall c | c in h'.large ensures LargeOk(h', c) { BesideLarge(h, h', zones, c); }
    MakeInv(h', {});
  }

  /** A live pointer keeps its request, its room and its words. */
  ghost predicate Kept(h: Heap, h': Heap, q: int)
    requires q in h.live
  {
    && q in h'.live && h'.live[q] == h.live[q] && Cap(h', q) == Cap(h, q)
    && forall x :: q <= x < q + Cap(h, q) ==> Peek(h'.words, x) == Peek(h.words, x)
  }

  lemma BesideLeavesLive(h: Heap, h': Heap, zones: set<Zone>, p: int)
    requires BesideStep(h, h', zones) && p in h.live && InBlock(p) !in zones && Payload(PageOf(p)) !in zones
    requires Inv(h, {})
    ensures Kept(h, h', p)
  {
    hide Inv, OwnerOk, Peek, Size, ZoneOf, KeptOutside, PageOf;
    LiveKept(h, h'.words, zones, p, {});
  }

  // ---------- what others do with their pages ----------

  /** Between calls, others take pages that are free, give back pages of theirs, and write to both. */
  ghost predicate OthersStep(h: Heap, h': Heap) {
    && h' == h.(words := h'.words, bits := h'.bits, foreign := h'.foreign) && |h'.bits| == |h.bits|
    && (forall i :: i in h.owner && i < |h.bits| ==> 0 <= i && h'.bits[i])
    && (forall i :: i in h'.foreign <==> 0 <= i < |h'.bits| && h'.bits[i] && i !in h.owner)
    && forall x :: ZoneOf(h, x) != Outside && !ZoneOf(h, x).Foreign? ==> Peek(h'.words, x) == Peek(h.words, x)
  }

  /** Where others may write. */
  function OthersZones(h: Heap): set<Zone> { {Outside} + set i | i in h.foreign :: Foreign(i) }

  lemma OthersAreBeside(h: Heap, h': Heap)
    requires OthersStep(h, h')
    requires Inv(h, {})
    ensures BesideStep(h, h', OthersZones(h))
  {
    hide FreeOk, LiveOk, DescsOk, SmallOk, LargeOk, Peek;
  }

  /** Nothing of this breaks the heap, nor the contents of a block that is live. */
  lemma OthersKeepInv(h: Heap, h': Heap)
    requires OthersStep(h, h')
    requires Inv(h, {})
    ensures Inv(h', {})
    ensures forall q :: q in h.live ==> Kept(h, h', q)
  {
    hide Inv, OthersStep, BesideStep, Kept;
    OthersAreBeside(h, h');
    BesideKeepsInv(h, h', OthersZones(h));
    forall q | q in h.live ensures Kept(h, h', q) {
      BesideLeavesLive(h, h', OthersZones(h), q);
    }
  }

  // ---------- what a holder does with its block ----------

  /** Where the holder of p may write. */
  function HolderZones(h: Heap, p: int): set<Zone> {
    {if PageOf(p) in h.large then Payload(PageOf(p)) else InBlock(p)}
  }

  /** The holder of p stores words into its block. */
  ghost predicate HolderStep(h: Heap, h': Heap, p: int) {
    && h' == h.(words := h'.words) && p in h.live
    && forall x :: !(p <= x < p + Cap(h, p)) ==> Peek(h'.words, x) == Peek(h.words, x)
  }

  lemma HolderStaysIn(h: Heap, h': Heap, p: int)
    requires HolderStep(h, h', p)
    requires Inv(h, {})
    ensures KeptOutside(h, h'.words, HolderZones(h, p))
  {
    LiveFacts(h, p, {});
    hide Inv, ZoneOf, Peek, PageOf, Cap;
    forall x | ZoneOf(h, x) !in HolderZones(h, p) ensures Peek(h'.words, x) == Peek(h.words, x) {
      if p <= x < p + Cap(h, p) {
        if PageOf(p) in h.large {
          PayloadZone(h, PageOf(p), x, {});
        } else {
          BlockZone(h, h.small[PageOf(p)], p, x, {});
        }
      }
    }
  }

  lemma HolderIsBeside(h: Heap, h': Heap, p: int)
    requires HolderStep(h, h', p)
    requires Inv(h, {})
    ensures BesideStep(h, h', HolderZones(h, p))
  {
    hide Inv, ZoneOf, Peek, PageOf, Cap, KeptOutside;
    InvParts(h, {});
    HolderStaysIn(h, h', p);
    SameOwners(h, h');
    forall di | 0 <= di < |h.free| ensures p !in h.free[di] {
      LiveNotFree(h, p, di, {});
    }
  }

  /** A holder may store what it likes in its whole block: the heap stays good, and every other live
      block keeps its words. */
  lemma HolderKeepsInv(h: Heap, h': Heap, p: int)
    requires HolderStep(h, h', p) && p in h.live
    requires Inv(h, {})
    ensures Inv(h', {})
    ensures forall q :: q in h.live && q != p ==> Kept(h, h', q)
  {
    hide Inv, HolderStep, BesideStep, Kept, PageOf, Cap;
    HolderIsBeside(h, h', p);
    BesideKeepsInv(h, h', HolderZones(h, p));
    forall q | q in h.live && q != p ensures Kept(h, h', q) {
      TwoHolders(h, p, q);
      BesideLeavesLive(h, h', HolderZones(h, p), q);
    }
  }

  lemma TwoHolders(h: Heap, p: int, q: int)
    requires p in h.live && q in h.live && p != q
    requires Inv(h, {})
    ensures InBlock(q) !in HolderZones(h, p) && Payload(PageOf(q)) !in HolderZones(h, p)
  {
    hide PageOf, FreeOk, OwnerOk, DescsOk, SmallOk, LargeOk, IsBlockAt;
  }

  // ---------- an arena comes ----------

  /** Memory as `sys_malloc` leaves it after it has built an arena in the free page a. */
  ghost predicate Built(h: Heap, m: Words, di: int, a: int, ys: seq<Elem>)
    requires Shape(h)
  {
    && 0 <= di < DESC_CNT && IsRun(h, a, 1) && h.free[di] == []
    && KeptOutside(h, m, {Outside, Ends(di)}) && IsList(m, ListAddr(h, di), ys)
    && (forall x :: x in ys <==> IsBlockAt(x, a, di))
    && Peek(m, a) == DescAddr(h, di) && Peek(m, a + 4) == Per(di) && Peek(m, a + 8) == 0
  }

  function SmallAdded(h: Heap, m: Words, di: int, a: int, ys: seq<Elem>): Heap
    requires 0 <= di < |h.free|
  {
    h.(words := m, bits := SetRange(h.bits, Idx(h, a), 1, true), free := h.free[di := ys],
       small := h.small[a := di], owner := h.owner[Idx(h, a) := a])
  }

  lemma BuiltDescs(h: Heap, m: Words, di: int, a: int, ys: seq<Elem>)
    requires Shape(h) && Built(h, m, di, a, ys)
    requires Inv(h, {})
    ensures 0 <= di < DESC_CNT && Shape(SmallAdded(h, m, di, a, ys)) && DescsOk(SmallAdded(h, m, di, a, ys))
  {
    hide Inv, IsList, Peek, Size, Per, KeptOutside, IsBlockAt;
    forall i | 0 <= i < DESC_CNT
      ensures Peek(m, DescAddr(h, i)) == Size(i) && Peek(m, DescAddr(h, i) + 4) == Per(i)
      ensures i != di ==> IsList(m, ListAddr(h, i), h.free[i])
    {
      DescKept(h, m, {Outside, Ends(di)}, i, {});
    }
  }

  /** No block of another arena is in the new list. */
  lemma BuiltCounts(h: Heap, m: Words, di: int, a: int, ys: seq<Elem>, c: int)
    requires Shape(h) && Built(h, m, di, a, ys) && c % PAGE == 0
    ensures 0 <= di < DESC_CNT
    ensures c != a ==> CountFree(ys, c, di, Per(di)) == 0 && forall k :: 0 <= k < Per(di) ==> Block(c, di, k) !in ys
    ensures c == a ==>
            && CountFree(ys, c, di, Per(di)) == Per(di)
            && forall k :: 0 <= k < Per(di) ==> Block(c, di, k) in ys
  {
    hide Shape, IsList, Peek, Size, Per, KeptOutside, PageOf;
    if c != a {
      forall k | 0 <= k < Per(di) ensures Block(c, di, k) !in ys {
        if Block(c, di, k) in ys {
          BlockFacts(Block(c, di, k), a, di);
          BlockBounds(c, di, k);
          assert false;
        }
      }
      CountSame(ys, [], c, di, Per(di));
      CountNone(c, di, Per(di));
    } else {
      forall k | 0 <= k < Per(di) ensures Block(c, di, k) in ys {
        assert IsBlockAt(Block(c, di, k), a, di);
      }
      PerPositive(di);
      CountBounds(ys, c, di, Per(di));
    }
  }

  lemma PerPositive(di: int)
    ensures Per(di) > 0
  {
  }

  lemma {:induction false} CountNone(a: int, di: int, n: nat)
    ensures CountFree([], a, di, n) == 0
  {
    if n > 0 { CountNone(a, di, n - 1); }
  }

  lemma BuiltSmall(h: Heap, m: Words, di: int, a: int, ys: seq<Elem>, c: int)
    requires Shape(h) && Built(h, m, di, a, ys) && (c in h.small || c == a)
    requires Inv(h, {})
    ensures 0 <= di < DESC_CNT
    ensures SmallOk(SmallAdded(h, m, di, a, ys), c, {a})
  {
    hide Inv, IsList, Size, Per, KeptOutside, IsBlockAt, PageOf;
    RunHasNoArena(h, a, 1);
    BuiltCounts(h, m, di, a, ys, c) by { if c != a { ArenaFacts(h, c, {}); } }
    var h' := SmallAdded(h, m, di, a, ys);
    if c == a {
      forall k | 0 <= k < Per(di) ensures Block(a, di, k) !in h.live {
        BlockBounds(a, di, k);
      }
    } else {
      ArenaFacts(h, c, {});
      HeaderKept(h, m, {Outside, Ends(di)}, c, {});
      CountNone(c, di, Per(di));
    }
  }

  lemma BuiltLarge(h: Heap, m: Words, di: int, a: int, ys: seq<Elem>, c: int)
    requires Shape(h) && Built(h, m, di, a, ys) && c in h.large
    requires Inv(h, {})
    ensures 0 <= di < DESC_CNT
    ensures LargeOk(SmallAdded(h, m, di, a, ys), c)
  {
    hide Inv, IsList, Size, Per, KeptOutside, IsBlockAt, PageOf, SmallOk, Peek;
    RunUnowned(h, a, 1, {});
    ArenaFacts(h, c, {});
    HeaderKept(h, m, {Outside, Ends(di)}, c, {});
    LargeStays(h, SmallAdded(h, m, di, a, ys), c);
  }

  /** A large arena stays well-formed while its header, pages and pointer stay. */
  lemma LargeStays(h: Heap, h': Heap, c: int)
    requires Shape(h) && Shape(h') && h'.start == h.start && |h'.bits| == |h.bits| && c in h.large && c in h'.large
    requires h'.large[c] == h.large[c] && LargeOk(h, c) && c + HEADER in h'.live
    requires forall x :: c <= x < c + HEADER ==> Peek(h'.words, x) == Peek(h.words, x)
    requires forall i :: i in h.owner && h.owner[i] == c ==> i in h'.owner && h'.owner[i] == c
    ensures LargeOk(h', c)
  {
    hide Peek, PageOf;
  }

  lemma BuiltBooks(h: Heap, m: Words, di: int, a: int, ys: seq<Elem>)
    requires Shape(h) && Built(h, m, di, a, ys)
    requires Inv(h, {})
    ensures 0 <= di < DESC_CNT
    ensures FreeOk(SmallAdded(h, m, di, a, ys)) && LiveOk(SmallAdded(h, m, di, a, ys))
  {
    hide IsList, KeptOutside, PageOf, OwnerOk, DescsOk, SmallOk, LargeOk, IsBlockAt, Size, Per;
    RunHasNoArena(h, a, 1);
    forall x | x in ys ensures PageOf(x) == a {
      BlockFacts(x, a, di);
    }
    assert FreeOk(SmallAdded(h, m, di, a, ys)) by { hide LiveOk; }
    assert LiveOk(SmallAdded(h, m, di, a, ys)) by { hide FreeOk; }
  }

  lemma BuiltOwner(h: Heap, m: Words, di: int, a: int, ys: seq<Elem>)
    requires Shape(h) && Built(h, m, di, a, ys)
    requires Inv(h, {})
    ensures 0 <= di < DESC_CNT
    ensures OwnerOk(SmallAdded(h, m, di, a, ys))
  {
    hide IsList, KeptOutside, PageOf, LiveOk, FreeOk, DescsOk, SmallOk, LargeOk, IsBlockAt, Size, Per;
    RunHasNoArena(h, a, 1);
  }

  /** A new arena, all of whose blocks are on the free list. */
  lemma BuildKeepsInv(h: Heap, m: Words, di: int, a: int, ys: seq<Elem>)
    requires Shape(h) && Built(h, m, di, a, ys)
    requires Inv(h, {})
    ensures 0 <= di < DESC_CNT
    ensures Inv(SmallAdded(h, m, di, a, ys), {a})
  {
    hide Inv, Built, FreeOk, LiveOk, OwnerOk, DescsOk, SmallOk, LargeOk;
    BuiltDescs(h, m, di, a, ys);
    BuiltBooks(h, m, di, a, ys);
    BuiltOwner(h, m, di, a, ys);
    var h' := SmallAdded(h, m, di, a, ys);
    forall c | c in h'.small ensures SmallOk(h', c, {a}) { BuiltSmall(h, m, di, a, ys, c); }
    forall c | c in h'.large ensures LargeOk(h', c) { BuiltLarge(h, m, di, a, ys, c); }
    MakeInv(h', {a});
  }

  // ---------- an arena whose blocks are all free goes ----------

  /** Memory after the blocks of arena a have been taken off the free list. */
  ghost predicate Emptied(h: Heap, m: Words, di: int, a: int, ys: seq<Elem>)
    requires Shape(h)
  {
    && 0 <= di < DESC_CNT && a in h.small && h.small[a] == di
    && KeptOutside(h, m, ListZones(h, di, Block(a, di, 0))) && IsList(m, ListAddr(h, di), ys)
    && (forall x :: x in ys <==> x in h.free[di] && PageOf(x) != a)
    && forall k :: 0 <= k < Per(di) ==> Block(a, di, k) in h.free[di]
  }

  function SmallDropped(h: Heap, m: Words, di: int, a: int, ys: seq<Elem>): Heap
    requires 0 <= di < |h.free|
  {
    h.(words := m, bits := SetRange(h.bits, Idx(h, a), 1, false), free := h.free[di := ys],
       small := h.small - {a}, owner := h.owner - {Idx(h, a)})
  }

  lemma FirstBlock(h: Heap, m: Words, di: int, a: int, ys: seq<Elem>, full: set<int>)
    requires Shape(h) && Emptied(h, m, di, a, ys)
    requires Inv(h, full)
    ensures IsArenaBlock(h, di, Block(a, di, 0))
  {
    hide Inv, IsList, KeptOutside, PageOf, IsBlockAt, IsArenaBlock;
    PerPositive(di);
    FreeIsArenaBlock(h, di, full);
  }

  lemma EmptiedDescs(h: Heap, m: Words, di: int, a: int, ys: seq<Elem>)
    requires Shape(h) && Emptied(h, m, di, a, ys)
    requires Inv(h, {a})
    ensures 0 <= di < DESC_CNT && Shape(SmallDropped(h, m, di, a, ys)) && DescsOk(SmallDropped(h, m, di, a, ys))
  {
    hide Inv, IsList, Peek, Size, Per, KeptOutside, IsBlockAt, PageOf, IsArenaBlock;
    var b := Block(a, di, 0);
    FirstBlock(h, m, di, a, ys, {a});
    forall i | 0 <= i < DESC_CNT
      ensures Peek(m, DescAddr(h, i)) == Size(i) && Peek(m, DescAddr(h, i) + 4) == Per(i)
      ensures i != di ==> IsList(m, ListAddr(h, i), h.free[i])
    {
      DescKept(h, m, ListZones(h, di, b), i, {a});
      if i != di {
        FreeListsDiffer(h, di, b, i, {a});
      }
    }
  }

  lemma EmptiedSmall(h: Heap, m: Words, di: int, a: int, ys: seq<Elem>, c: int)
    requires Shape(h) && Emptied(h, m, di, a, ys) && c in h.small && c != a
    requires Inv(h, {a})
    ensures 0 <= di < DESC_CNT
    ensures SmallOk(SmallDropped(h, m, di, a, ys), c, {})
  {
    hide Inv, IsList, Size, Per, KeptOutside, IsBlockAt, PageOf, Peek;
    ArenaFacts(h, c, {a});
    ArenaFacts(h, a, {a});
    HeaderKept(h, m, ListZones(h, di, Block(a, di, 0)), c, {a});
    var dc := h.small[c];
    if dc == di {
      forall k | 0 <= k < Per(di) ensures Block(c, di, k) in ys <==> Block(c, di, k) in h.free[di] {
        BlockBounds(c, di, k);
      }
      CountSame(ys, h.free[di], c, di, Per(di));
    }
  }

  lemma EmptiedLarge(h: Heap, m: Words, di: int, a: int, ys: seq<Elem>, c: int)
    requires Shape(h) && Emptied(h, m, di, a, ys) && c in h.large
    requires Inv(h, {a})
    ensures 0 <= di < DESC_CNT
    ensures LargeOk(SmallDropped(h, m, di, a, ys), c)
  {
    hide Inv, IsList, Size, Per, KeptOutside, IsBlockAt, PageOf, SmallOk;
    ArenaFacts(h, c, {a});
    ArenaFacts(h, a, {a});
    HeaderKept(h, m, ListZones(h, di, Block(a, di, 0)), c, {a});
  }

  lemma EmptiedNotLive(h: Heap, m: Words, di: int, a: int, ys: seq<Elem>)
    requires Shape(h) && Emptied(h, m, di, a, ys)
    requires Inv(h, {a})
    ensures forall p :: p in h.live ==> PageOf(p) != a
  {
    forall p | p in h.live ensures PageOf(p) != a {
      if PageOf(p) == a {
        LiveFacts(h, p, {a});
        ArenaFacts(h, a, {a});
        assert false;
      }
    }
  }

  lemma EmptiedLists(h: Heap, m: Words, di: int, a: int, ys: seq<Elem>)
    requires Shape(h) && Emptied(h, m, di, a, ys)
    requires Inv(h, {a})
    ensures 0 <= di < DESC_CNT
    ensures FreeOk(SmallDropped(h, m, di, a, ys)) && LiveOk(SmallDropped(h, m, di, a, ys))
  {
    hide IsList, KeptOutside, PageOf, OwnerOk, DescsOk, SmallOk, LargeOk, IsBlockAt, Size, Per;
    EmptiedNotLive(h, m, di, a, ys);
    ArenaFacts(h, a, {a});
    EmptiedOthers(h, m, di, a, ys);
    assert FreeOk(SmallDropped(h, m, di, a, ys)) by { hide LiveOk; }
    assert LiveOk(SmallDropped(h, m, di, a, ys)) by { hide FreeOk; }
  }

  lemma EmptiedOthers(h: Heap, m: Words, di: int, a: int, ys: seq<Elem>)
    requires Shape(h) && Emptied(h, m, di, a, ys)
    requires Inv(h, {a})
    ensures forall i, x :: 0 <= i < DESC_CNT && i != di && x in h.free[i] ==> PageOf(x) != a
  {
    hide IsList, KeptOutside, PageOf, OwnerOk, DescsOk, SmallOk, LargeOk, IsBlockAt, Size, Per, LiveOk;
  }

  lemma EmptiedOwner(h: Heap, m: Words, di: int, a: int, ys: seq<Elem>)
    requires Shape(h) && Emptied(h, m, di, a, ys)
    requires Inv(h, {a})
    ensures 0 <= di < DESC_CNT
    ensures OwnerOk(SmallDropped(h, m, di, a, ys))
  {
    hide Inv, IsList, KeptOutside, PageOf, LiveOk, FreeOk, DescsOk, SmallOk, LargeOk, IsBlockAt, Size, Per;
    InvParts(h, {a});
    ArenaFacts(h, a, {a});
  }

  /** An arena with all its blocks free is given back whole. */
  lemma CollapseKeepsInv(h: Heap, m: Words, di: int, a: int, ys: seq<Elem>)
    requires Shape(h) && Emptied(h, m, di, a, ys)
    requires Inv(h, {a})
    ensures 0 <= di < DESC_CNT
    ensures Inv(SmallDropped(h, m, di, a, ys), {})
  {
    hide Inv, Emptied, FreeOk, LiveOk, OwnerOk, DescsOk, SmallOk, LargeOk;
    EmptiedDescs(h, m, di, a, ys);
    EmptiedLists(h, m, di, a, ys);
    EmptiedOwner(h, m, di, a, ys);
    var h' := SmallDropped(h, m, di, a, ys);
    forall c | c in h'.small ensures SmallOk(h', c, {}) { EmptiedSmall(h, m, di, a, ys, c); }
    forall c | c in h'.large ensures LargeOk(h', c) { EmptiedLarge(h, m, di, a, ys, c); }
    MakeInv(h', {});
  }

  // ---------- large arenas ----------

  ghost predicate BuiltWhole(h: Heap, m: Words, a: int, n: int, size: int)
    requires Shape(h)
  {
    && IsRun(h, a, n) && 0 < size <= PAGE * n - HEADER && KeptOutside(h, m, {Outside})
    && Peek(m, a) == 0 && Peek(m, a + 4) == n && Peek(m, a + 8) == 1
  }

  lemma HeaderInPage(a: int)
    requires a % PAGE == 0
    ensures PageOf(a + HEADER) == a
  {
  }

  predicate InRun(k: int, i: int, n: int) { i <= k < i + n }

  function RunPages(i: int, n: int): set<int> { set k | i <= k < i + n && InRun(k, i, n) }

  /** The owners after pages i to i + n have gone to arena a. */
  function Owned(owner: map<int, int>, i: int, n: int, a: int): map<int, int> {
    map k | k in owner.Keys + RunPages(i, n) :: if k in RunPages(i, n) then a else owner[k]
  }

  function Disowned(owner: map<int, int>, i: int, n: int): map<int, int> {
    map k | k in owner && !(i <= k < i + n) :: owner[k]
  }

  function LargeAdded(h: Heap, m: Words, a: int, n: int, size: int): Heap {
    h.(words := m, bits := SetRange(h.bits, Idx(h, a), n, true), large := h.large[a := n],
       owner := Owned(h.owner, Idx(h, a), n, a), live := h.live[a + HEADER := size])
  }

  lemma WholeDescs(h: Heap, m: Words, a: int, n: int, size: int)
    requires Shape(h) && BuiltWhole(h, m, a, n, size)
    requires Inv(h, {})
    ensures Shape(LargeAdded(h, m, a, n, size)) && DescsOk(LargeAdded(h, m, a, n, size))
  {
    hide Inv, IsList, Peek, Size, Per, KeptOutside, IsBlockAt;
    forall i | 0 <= i < DESC_CNT
      ensures Peek(m, DescAddr(h, i)) == Size(i) && Peek(m, DescAddr(h, i) + 4) == Per(i)
      ensures IsList(m, ListAddr(h, i), h.free[i])
    {
      DescKept(h, m, {Outside}, i, {});
    }
  }

  lemma WholeSmall(h: Heap, m: Words, a: int, n: int, size: int, c: int)
    requires Shape(h) && BuiltWhole(h, m, a, n, size) && c in h.small
    requires Inv(h, {})
    ensures SmallOk(LargeAdded(h, m, a, n, size), c, {})
  {
    hide Inv, IsList, Size, KeptOutside, IsBlockAt, Peek;
    RunUnowned(h, a, n, {});
    RunHasNoArena(h, a, n);
    ArenaFacts(h, c, {});
    HeaderKept(h, m, {Outside}, c, {});
    var dc := h.small[c];
    forall k | 0 <= k < Per(dc) ensures Block(c, dc, k) != a + HEADER {
      BlockBounds(c, dc, k);
    }
  }

  lemma WholeLarge(h: Heap, m: Words, a: int, n: int, size: int, c: int)
    requires Shape(h) && BuiltWhole(h, m, a, n, size) && (c in h.large || c == a)
    requires Inv(h, {})
    ensures LargeOk(LargeAdded(h, m, a, n, size), c)
  {
    hide Inv, IsList, Size, Per, KeptOutside, IsBlockAt, PageOf, SmallOk;
    RunUnowned(h, a, n, {});
    if c != a {
      ArenaFacts(h, c, {});
      HeaderKept(h, m, {Outside}, c, {});
    }
  }

  lemma WholeBooks(h: Heap, m: Words, a: int, n: int, size: int)
    requires Shape(h) && BuiltWhole(h, m, a, n, size)
    requires Inv(h, {})
    ensures var h' := LargeAdded(h, m, a, n, size); FreeOk(h') && LiveOk(h')
  {
    hide IsList, KeptOutside, OwnerOk, DescsOk, SmallOk, LargeOk, IsBlockAt, Size, Per, PageOf;
    RunHasNoArena(h, a, n);
    HeaderInPage(a);
    var h' := LargeAdded(h, m, a, n, size);
    assert FreeOk(h') by { hide LiveOk; }
    assert LiveOk(h') by { hide FreeOk; }
  }

  lemma WholeOwner(h: Heap, m: Words, a: int, n: int, size: int)
    requires Shape(h) && BuiltWhole(h, m, a, n, size)
    requires Inv(h, {})
    ensures OwnerOk(LargeAdded(h, m, a, n, size))
  {
    hide IsList, KeptOutside, PageOf, LiveOk, FreeOk, DescsOk, SmallOk, LargeOk, IsBlockAt, Size, Per;
    RunHasNoArena(h, a, n);
  }

  /** A large arena, whose one block is handed out. */
  lemma LargeKeepsInv(h: Heap, m: Words, a: int, n: int, size: int)
    requires Shape(h) && BuiltWhole(h, m, a, n, size)
    requires Inv(h, {})
    ensures Inv(LargeAdded(h, m, a, n, size), {})
  {
    hide Inv, BuiltWhole, FreeOk, LiveOk, OwnerOk, DescsOk, SmallOk, LargeOk;
    WholeDescs(h, m, a, n, size);
    WholeBooks(h, m, a, n, size);
    WholeOwner(h, m, a, n, size);
    var h' := LargeAdded(h, m, a, n, size);
    forall c | c in h'.small ensures SmallOk(h', c, {}) { WholeSmall(h, m, a, n, size, c); }
    forall c | c in h'.large ensures LargeOk(h', c) { WholeLarge(h, m, a, n, size, c); }
    MakeInv(h', {});
  }

  function LargeDropped(h: Heap, a: int): Heap
    requires a in h.large
  {
    h.(bits := SetRange(h.bits, Idx(h, a), h.large[a], false), large := h.large - {a},
       owner := Disowned(h.owner, Idx(h, a), h.large[a]), live := h.live - {a + HEADER})
  }

  lemma LargeRun(h: Heap, a: int)
    requires Shape(h) && a in h.large && LargeOk(h, a)
    ensures forall i :: Idx(h, a) <= i < Idx(h, a) + h.large[a] ==> i in h.owner && h.owner[i] == a
    ensures a + HEADER in h.live
  {
    hide Peek, PageOf;
  }

  /** The pages of another arena keep their owner. */
  lemma DroppedOwner(h: Heap, a: int, c: int)
    requires Shape(h) && a in h.large && c != a
    requires Inv(h, {})
    ensures forall i :: i in h.owner && h.owner[i] == c ==>
            i in LargeDropped(h, a).owner && LargeDropped(h, a).owner[i] == c
    ensures c + HEADER in h.live ==> c + HEADER in LargeDropped(h, a).live
  {
    hide Inv, IsBlockAt, Peek, PageOf, SmallOk, LargeOk, Idx, IsArenaPage;
    ArenaFacts(h, a, {});
    LargeRun(h, a);
  }

  lemma DropSmall(h: Heap, a: int, c: int)
    requires Shape(h) && a in h.large && c in h.small
    requires Inv(h, {})
    ensures SmallOk(LargeDropped(h, a), c, {})
  {
    hide Inv, IsBlockAt, Peek;
    ArenaFacts(h, a, {});
    ArenaFacts(h, c, {});
    var dc := h.small[c];
    forall k | 0 <= k < Per(dc) ensures Block(c, dc, k) != a + HEADER {
      BlockBounds(c, dc, k);
    }
  }

  lemma DropLarge(h: Heap, a: int, c: int)
    requires Shape(h) && a in h.large && c in h.large && c != a
    requires Inv(h, {})
    ensures LargeOk(LargeDropped(h, a), c)
  {
    hide Inv, IsBlockAt, Peek, PageOf, SmallOk, LargeOk, Idx, IsArenaPage;
    ArenaFacts(h, c, {});
    DroppedOwner(h, a, c);
    LargeRun(h, c);
    hide Disowned;
    LargeStays(h, LargeDropped(h, a), c);
  }

  lemma DropBooks(h: Heap, a: int)
    requires Shape(h) && a in h.large
    requires Inv(h, {})
    ensures FreeOk(LargeDropped(h, a)) && LiveOk(LargeDropped(h, a))
  {
    hide DescsOk, SmallOk, LargeOk, IsBlockAt, Size, Per, PageOf, OwnerOk;
    ArenaFacts(h, a, {});
    HeaderInPage(a);
    var h' := LargeDropped(h, a);
    assert FreeOk(h') by { hide LiveOk; }
    assert LiveOk(h') by { hide FreeOk; }
  }

  lemma DropOwner(h: Heap, a: int)
    requires Shape(h) && a in h.large
    requires Inv(h, {})
    ensures OwnerOk(LargeDropped(h, a))
  {
    hide Inv, DescsOk, SmallOk, IsBlockAt, Size, Per, PageOf, FreeOk, LiveOk, LargeOk;
    InvParts(h, {});
    ArenaFacts(h, a, {});
    LargeRun(h, a);
  }

  lemma DropKeepsInv(h: Heap, a: int)
    requires Shape(h) && a in h.large
    requires Inv(h, {})
    ensures Inv(LargeDropped(h, a), {})
  {
    hide Inv, FreeOk, LiveOk, OwnerOk, DescsOk, SmallOk, LargeOk;
    InvParts(h, {});
    DropBooks(h, a);
    DropOwner(h, a);
    var h' := LargeDropped(h, a);
    DescsIgnoreLive(h, h');
    forall c | c in h'.small ensures SmallOk(h', c, {}) { DropSmall(h, a, c); }
    forall c | c in h'.large ensures LargeOk(h', c) { DropLarge(h, a, c); }
    MakeInv(h', {});
  }
}
