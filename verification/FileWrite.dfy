/** `file_write` (v1-src/fileSystem/file.c:196-359) for files that stay within their 12 direct
    blocks: it appends. */
module FileWrites {
  import opened Common
  import opened Disk
  import opened Inodes
  import opened Volumes
  import opened Files

  /** Direct blocks 0 to p - 1 are there, allocated and different; there is no other block. */
  ghost predicate DirectOk(v: Volume, i: Inode, p: int) {
    && Layout(v) && IsInode(i) && i.sectors[12] == 0 && 0 <= p <= 12
    && (forall k :: 0 <= k < 12 ==> (i.sectors[k] != 0 <==> k < p))
    && (forall k :: 0 <= k < p ==>
        && IsData(v, i.sectors[k]) && i.sectors[k] != v.sb.dataStartLba
        && v.blockMap[i.sectors[k] - v.sb.dataStartLba])
    && (forall k, l :: 0 <= k < l < p ==> i.sectors[k] != i.sectors[l])
  }

  /** The blocks a file of that size has: none before its first write, later up to the one of the
      next byte. */
  function BlocksOf(i: Inode): int
    requires IsInode(i)
  {
    if i.sectors[0] == 0 then 0 else i.size / BLOCK_SIZE + 1
  }

  ghost predicate Appendable(v: Volume, i: Inode) {
    && VolumeOk(v) && IsInode(i) && |v.blockMap| > 0 && v.blockMap[0] && i.size < 12 * BLOCK_SIZE
    && (i.sectors[0] == 0 ==> i.size == 0) && DirectOk(v, i, BlocksOf(i))
  }

  /** The clear bits of a map. */
  function CountClear(bits: seq<bool>): nat {
    if bits == [] then 0 else CountClear(bits[..|bits| - 1]) + if bits[|bits| - 1] then 0 else 1
  }

  lemma {:induction false} SomeClear(bits: seq<bool>)
    requires CountClear(bits) > 0
    ensures exists k :: 0 <= k < |bits| && !bits[k]
  {
    if bits[|bits| - 1] {
      SomeClear(bits[..|bits| - 1]);
      var k :| 0 <= k < |bits| - 1 && !bits[..|bits| - 1][k];
      assert !bits[k];
    } else {
      assert !bits[|bits| - 1];
    }
  }

  lemma {:induction false} OneClearLess(bits: seq<bool>, k: nat)
    requires k < |bits| && !bits[k]
    ensures CountClear(bits[k := true]) == CountClear(bits) - 1
  {
    var n := |bits| - 1;
    if k == n {
      assert bits[k := true][..n] == bits[..n];
    } else {
      OneClearLess(bits[..n], k);
      assert bits[k := true][..n] == bits[..n][k := true];
    }
  }

  // ---------- new blocks ----------

  /** Bit k is that of one of the blocks p to q - 1. */
  predicate IsNew(start: int, sectors: seq<Word>, p: int, q: int, k: int) {
    exists j :: p <= j < q && 0 <= j < |sectors| && sectors[j] == start + k
  }

  /** Exactly the bits of the blocks p to q - 1 have come; they were clear. */
  ghost predicate BitsGrown(v: Volume, p: int, v': Volume, i': Inode, q: int) {
    && |v'.blockMap| == |v.blockMap| && 0 <= p <= q <= |i'.sectors|
    && (forall k {:trigger v'.blockMap[k]} :: 0 <= k < |v.blockMap| ==>
        (v'.blockMap[k] <==> v.blockMap[k] || IsNew(v.sb.dataStartLba, i'.sectors, p, q, k)))
    && (forall j :: p <= j < q ==>
        && 0 <= i'.sectors[j] - v.sb.dataStartLba < |v.blockMap|
        && !v.blockMap[i'.sectors[j] - v.sb.dataStartLba])
  }

  /** The file has grown from p to q direct blocks; neither the inode table nor the data has changed. */
  ghost predicate Grown(v: Volume, i: Inode, p: int, v': Volume, i': Inode, q: int) {
    && VolumeOk(v') && SameTableAndData(v, v') && v'.inodeMap == v.inodeMap
    && DirectOk(v', i', q) && BitsGrown(v, p, v', i', q)
    && IsInode(i) && 0 <= p <= q && i' == i.(sectors := i'.sectors)
        && (forall k :: 0 <= k < p ==> i'.sectors[k] == i.sectors[k])
  }

  lemma GrownBegins(v: Volume, i: Inode, p: int)
    requires VolumeOk(v) && DirectOk(v, i, p)
    ensures Grown(v, i, p, v, i, p)
  {
    hide HoldsBitmap;
  }

  lemma DirectMore(u: Volume, i: Inode, q: int, lba: Word, w: Volume)
    requires DirectOk(u, i, q) && q < 12 && IsData(u, lba) && lba != u.sb.dataStartLba
             && !u.blockMap[lba - u.sb.dataStartLba]
    requires w.sb == u.sb && w.blockMap == u.blockMap[lba - u.sb.dataStartLba := true] && Layout(w)
    ensures DirectOk(w, i.(sectors := i.sectors[q := lba]), q + 1)
  {
    hide HoldsBitmap;
    var i2 := i.(sectors := i.sectors[q := lba]);
    forall k | 0 <= k < q ensures i2.sectors[k] != lba {}
  }

  lemma BitsMore(v: Volume, p: int, u: Volume, i: Inode, q: int, lba: Word, w: Volume)
    requires BitsGrown(v, p, u, i, q) && q < |i.sectors| && 0 <= lba - v.sb.dataStartLba < |v.blockMap|
             && !u.blockMap[lba - v.sb.dataStartLba]
    requires w.blockMap == u.blockMap[lba - v.sb.dataStartLba := true]
    ensures BitsGrown(v, p, w, i.(sectors := i.sectors[q := lba]), q + 1)
  {
    hide IsNew;
    var i2 := i.(sectors := i.sectors[q := lba]);
    forall k ensures IsNew(v.sb.dataStartLba, i2.sectors, p, q + 1, k)
        <==> IsNew(v.sb.dataStartLba, i.sectors, p, q, k) || k == lba - v.sb.dataStartLba
    {
      NewMore(v, i, p, q, lba, k);
    }
    forall k | 0 <= k < |v.blockMap|
      ensures w.blockMap[k] <==> v.blockMap[k] || IsNew(v.sb.dataStartLba, i2.sectors, p, q + 1, k) {}
    forall j | p <= j < q + 1
      ensures 0 <= i2.sectors[j] - v.sb.dataStartLba < |v.blockMap| && !v.blockMap[i2.sectors[j] - v.sb.dataStartLba]
    {
      assert j == q || i2.sectors[j] == i.sectors[j];
    }
  }

  lemma NewMore(v: Volume, i: Inode, p: int, q: int, lba: Word, k: int)
    requires 0 <= p <= q < |i.sectors|
    ensures IsNew(v.sb.dataStartLba, i.sectors[q := lba], p, q + 1, k)
            <==> IsNew(v.sb.dataStartLba, i.sectors, p, q, k) || k == lba - v.sb.dataStartLba
  {
    var i2 := i.(sectors := i.sectors[q := lba]);
    if IsNew(v.sb.dataStartLba, i.sectors, p, q, k) {
      var j :| p <= j < q && 0 <= j < |i.sectors| && i.sectors[j] == v.sb.dataStartLba + k;
      assert i2.sectors[j] == v.sb.dataStartLba + k;
    }
    if k == lba - v.sb.dataStartLba { assert i2.sectors[q] == v.sb.dataStartLba + k; }
    if IsNew(v.sb.dataStartLba, i2.sectors, p, q + 1, k) {
      var j :| p <= j < q + 1 && 0 <= j < |i2.sectors| && i2.sectors[j] == v.sb.dataStartLba + k;
      assert j == q || i.sectors[j] == v.sb.dataStartLba + k;
    }
  }

  /** One more block from the bitmap. */
  lemma GrownMore(v: Volume, i: Inode, p: int, u: Volume, i1: Inode, q: int, lba: Word)
    requires VolumeOk(v) && Grown(v, i, p, u, i1, q) && q < 12 && |v.blockMap| > 0 && v.blockMap[0]
    requires IsData(v, lba) && lba - v.sb.dataStartLba < |u.blockMap| && !u.blockMap[lba - v.sb.dataStartLba]
    ensures Layout(u) && lba != v.sb.dataStartLba && IsInode(i1)
    ensures Grown(v, i, p, BlockBitWritten(u, lba - v.sb.dataStartLba, true), i1.(sectors := i1.sectors[q := lba]),
            q + 1)
  {
    hide HoldsBitmap, BitmapSynced;
    var k0 := lba - v.sb.dataStartLba;
    assert k0 != 0 by { assert u.blockMap[0]; }
    BlockBitKeeps(u, k0, true);
    var w := BlockBitWritten(u, k0, true);
    DirectMore(u, i1, q, lba, w);
    BitsMore(v, p, u, i1, q, lba, w);
    hide BitsGrown, DirectOk, Layout;
  }

  /** One block is allocated for the file, its bit synced and its number written to the inode. */
  method AddBlock(part: Partition, node: MemInode, blockIdx: int, ghost v: Volume, ghost i: Inode, ghost p: int)
    requires VolumeOk(v) && Grown(v, i, p, part.V(), node.i, blockIdx) && 0 <= blockIdx < 12 && |v.blockMap| > 0
             && v.blockMap[0]
    requires CountClear(part.blockMap) > 0
    modifies part`disk, part`blockMap, node
    ensures Grown(v, i, p, part.V(), node.i, blockIdx + 1)
            && CountClear(part.blockMap) == old(CountClear(part.blockMap)) - 1
  {
    hide VolumeOk, Grown, Layout, BitmapSynced, HoldsBitmap;
    GrownFacts(v, i, p, part.V(), node.i, blockIdx);
    SomeClear(part.blockMap);
    ghost var u := part.V();
    var blockLba := part.BlockBitmapAlloc();
    OneClearLess(u.blockMap, blockLba - part.sb.dataStartLba);
    LbaIsWord(u, blockLba);
    GrownMore(v, i, p, u, node.i, blockIdx, blockLba);
    assert node.i.sectors[blockIdx] == 0;
    node.i := node.i.(sectors := node.i.sectors[blockIdx := blockLba]);
    var blockBitmapIdx := blockLba - part.sb.dataStartLba;
    assert blockBitmapIdx != 0;
    part.SyncBlockBit(blockBitmapIdx);
  }

  lemma GrownFacts(v: Volume, i: Inode, p: int, u: Volume, i1: Inode, q: int)
    requires Grown(v, i, p, u, i1, q)
    ensures VolumeOk(u) && Layout(u) && IsInode(i1) && u.sb == v.sb && i1 == i.(sectors := i1.sectors)
            && (0 <= q < 12 ==> i1.sectors[q] == 0)
    ensures TableFits(u.disk, u.sb.inodeTableLba) && u.inodeMap == v.inodeMap && |u.disk| == |v.disk|
            && 0 <= p <= q <= 12
    ensures |u.blockMap| % BITS_PER_SECTOR == 0 && 0 <= u.sb.blockBitmapLba
            && u.sb.blockBitmapLba + Sects(u.blockMap) <= |u.disk|
    ensures u.sb.dataSects <= |u.blockMap|
  {
    hide HoldsBitmap, BitsGrown;
  }

  lemma LbaIsWord(u: Volume, lba: int)
    requires Layout(u) && IsData(u, lba)
    ensures 0 <= lba < 0x1_0000_0000
  {
  }

  /** The new blocks of a write that stays within the direct blocks. */
  method Grow(part: Partition, node: MemInode, count: Word)
    requires Appendable(part.V(), node.i) && node.i.size + count < 12 * BLOCK_SIZE
    requires CountClear(part.blockMap) >= (node.i.size + count) / BLOCK_SIZE + 1 - BlocksOf(node.i)
    modifies part`disk, part`blockMap, node
    ensures Grown(old(part.V()), old(node.i), old(BlocksOf(node.i)), part.V(), node.i,
            (node.i.size + count) / BLOCK_SIZE + 1)
    ensures node.i == old(node.i).(sectors := node.i.sectors)
    ensures CountClear(part.blockMap)
            == old(CountClear(part.blockMap)) - ((node.i.size + count) / BLOCK_SIZE + 1 - old(BlocksOf(node.i)))
  {
    hide VolumeOk, Grown, BitmapSynced, HoldsBitmap, DirectOk;
    ghost var v, i, p := part.V(), node.i, BlocksOf(node.i);
    GrownBegins(v, i, p);
    if node.i.sectors[0] == 0 {
      AddBlock(part, node, 0, v, i, p);
      GrownFacts(v, i, p, part.V(), node.i, 1);
    }
    var fileHasUsedBlocks := node.i.size / BLOCK_SIZE + 1;
    var fileWillUseBlocks := (node.i.size + count) / BLOCK_SIZE + 1;
    assert fileWillUseBlocks <= 140;
    var blockIdx := fileHasUsedBlocks;
    while blockIdx < fileWillUseBlocks
      invariant fileHasUsedBlocks <= blockIdx <= fileWillUseBlocks && node.i == i.(sectors := node.i.sectors)
      invariant Grown(v, i, p, part.V(), node.i, blockIdx)
      invariant CountClear(part.blockMap) == old(CountClear(part.blockMap)) - (blockIdx - p)
    {
      AddBlock(part, node, blockIdx, v, i, p);
      blockIdx := blockIdx + 1;
      GrownFacts(v, i, p, part.V(), node.i, blockIdx);
    }
  }

  // ---------- the data ----------

  predicate BlocksOnDisk(disk: seq<Sector>, blocks: seq<Word>, n: int) {
    forall k :: 0 <= k < |blocks| && BLOCK_SIZE * k < n ==> blocks[k] < |disk|
  }

  /** The blocks that hold bytes 0 to n - 1 are sectors of the disk and all different. */
  ghost predicate BlocksFor(disk: seq<Sector>, blocks: seq<Word>, n: int) {
    && 0 <= n <= BLOCK_SIZE * |blocks| && BlocksOnDisk(disk, blocks, n)
    && forall k, l :: 0 <= k < l < |blocks| && BLOCK_SIZE * l < n ==> blocks[k] != blocks[l]
  }

  /** The first n bytes in blocks that follow each other in a file. */
  ghost function BlockBytes(disk: seq<Sector>, blocks: seq<Word>, n: int): (r: seq<Byte>)
    requires BlocksFor(disk, blocks, n)
    ensures |r| == n
  {
    seq(n, x requires 0 <= x < n => disk[blocks[x / BLOCK_SIZE]][x % BLOCK_SIZE])
  }

  lemma ContentIsBlockBytes(disk: seq<Sector>, i: Inode, p: int)
    requires IsInode(i) && i.sectors[12] == 0 && 0 <= p <= 12 && BlocksFor(disk, i.sectors[..p], i.size) && |disk| > 0
    ensures (forall x :: 0 <= x < i.size ==> ByteThere(disk, i, x))
            && Content(disk, i) == BlockBytes(disk, i.sectors[..p], i.size)
  {
    forall x | 0 <= x < i.size
      ensures ByteThere(disk, i, x) && BlockAt(disk, i, x / BLOCK_SIZE) == i.sectors[..p][x / BLOCK_SIZE]
    {
      assert BLOCK_SIZE * (x / BLOCK_SIZE) < i.size;
    }
  }

  /** A chunk written behind the first n bytes, into the block of byte n. */
  lemma AppendChunk(disk: seq<Sector>, blocks: seq<Word>, n: int, io: Sector, chunk: seq<Byte>)
    requires 0 <= n && 0 < |chunk| && n % BLOCK_SIZE + |chunk| <= BLOCK_SIZE
    requires BlocksFor(disk, blocks, n + |chunk|) && BlocksFor(disk, blocks, n)
    requires n / BLOCK_SIZE < |blocks| && blocks[n / BLOCK_SIZE] < |disk|
             && io[..n % BLOCK_SIZE] == disk[blocks[n / BLOCK_SIZE]][..n % BLOCK_SIZE]
    ensures var disk' := disk[blocks[n / BLOCK_SIZE] := Patched(io, n % BLOCK_SIZE, chunk)];
            BlocksFor(disk', blocks, n + |chunk|)
                && BlockBytes(disk', blocks, n + |chunk|) == BlockBytes(disk, blocks, n) + chunk
  {
    var b, off := n / BLOCK_SIZE, n % BLOCK_SIZE;
    var disk' := disk[blocks[b] := Patched(io, off, chunk)];
    var r := BlockBytes(disk', blocks, n + |chunk|);
    forall x | 0 <= x < n + |chunk| ensures r[x] == (BlockBytes(disk, blocks, n) + chunk)[x] {
      var k := x / BLOCK_SIZE;
      assert BLOCK_SIZE * k < n + |chunk| && BLOCK_SIZE * b < n + |chunk|;
      if x < n {
        if k == b {
          assert x % BLOCK_SIZE < off;
          assert io[..off][x % BLOCK_SIZE] == disk[blocks[b]][..off][x % BLOCK_SIZE];
        } else {
          assert k < b && blocks[k] != blocks[b];
        }
      } else {
        assert k == b && x % BLOCK_SIZE == off + (x - n);
      }
    }
  }

  lemma FewerBlocks(disk: seq<Sector>, blocks: seq<Word>, n: int, m: int)
    requires BlocksFor(disk, blocks, n) && 0 <= m <= n
    ensures BlocksFor(disk, blocks, m)
  {
  }

  /** Data has been appended to the first n bytes, and no sector outside the blocks has changed. */
  ghost predicate WrittenTo(disk: seq<Sector>, disk': seq<Sector>, blocks: seq<Word>, n: int, data: seq<Byte>) {
    && |disk'| == |disk| && BlocksFor(disk, blocks, n) && BlocksFor(disk', blocks, n + |data|)
    && BlockBytes(disk', blocks, n + |data|) == BlockBytes(disk, blocks, n) + data
    && forall l :: 0 <= l < |disk| && l !in blocks ==> disk'[l] == disk[l]
  }

  lemma WrittenNothing(disk: seq<Sector>, blocks: seq<Word>, n: int)
    requires BlocksFor(disk, blocks, n)
    ensures WrittenTo(disk, disk, blocks, n, [])
  {
    assert BlockBytes(disk, blocks, n) + [] == BlockBytes(disk, blocks, n);
  }

  lemma WrittenMore(d0: seq<Sector>, d1: seq<Sector>, d2: seq<Sector>, blocks: seq<Word>, n: int, a: seq<Byte>,
      b: seq<Byte>)
    requires WrittenTo(d0, d1, blocks, n, a) && WrittenTo(d1, d2, blocks, n + |a|, b)
    ensures WrittenTo(d0, d2, blocks, n, a + b)
  {
    hide BlocksFor;
    assert BlockBytes(d0, blocks, n) + a + b == BlockBytes(d0, blocks, n) + (a + b);
  }

  /** One pass of the loop of file_write: the block of byte n is read, if it is the first, and
      written with the chunk in it. */
  method WriteChunk(part: Partition, blocks: seq<Word>, n: int, chunk: seq<Byte>, first: bool)
    requires 0 <= n && 0 < |chunk| && Offset(n) + |chunk| <= BLOCK_SIZE && (first || Offset(n) == 0)
    requires BlocksFor(part.disk, blocks, n + |chunk|) && BlocksFor(part.disk, blocks, n)
    modifies part`disk
    ensures WrittenTo(old(part.disk), part.disk, blocks, n, chunk)
  {
    hide BlockBytes;
    var secIdx := n / BLOCK_SIZE;
    assert BLOCK_SIZE * secIdx < n + |chunk|;
    var secLba := blocks[secIdx];
    var ioBuf: Sector := Zeros(BLOCK_SIZE);
    if first {
      ioBuf := part.disk[secLba];
    }
    AppendChunk(part.disk, blocks, n, ioBuf, chunk);
    part.disk := part.disk[secLba := Patched(ioBuf, n % BLOCK_SIZE, chunk)];
  }

  /** Where byte n lies in its block. */
  function Offset(n: int): (r: int)
    ensures 0 <= r < BLOCK_SIZE
  {
    n % BLOCK_SIZE
  }

  /** The loop of file_write. */
  method WriteData(part: Partition, file: File, blocks: seq<Word>, buf: array<Byte>, count: Word)
    requires count <= buf.Length && file.fdInode.i.size + count < 12 * BLOCK_SIZE
    requires BlocksFor(part.disk, blocks, file.fdInode.i.size + count)
    modifies part`disk, file`fdPos, file.fdInode
    ensures file.fdInode.i == old(file.fdInode.i).(size := old(file.fdInode.i.size) + count)
    ensures WrittenTo(old(part.disk), part.disk, blocks, old(file.fdInode.i.size), buf[..count])
    ensures file.fdPos == Wrap(old(file.fdInode.i.size) + count - 1)
  {
    hide WrittenTo, BlocksFor, Wrap, Offset;
    ghost var i, disk := file.fdInode.i, part.disk;
    var bytesWritten, sizeLeft: int := 0, count;
    var firstWriteBlock := true;
    file.fdPos := Wrap(file.fdInode.i.size - 1);
    FewerBlocks(disk, blocks, i.size + count, i.size);
    WrittenNothing(disk, blocks, i.size);
    assert buf[..0] == [];
    while bytesWritten < count
      invariant 0 <= bytesWritten <= count && sizeLeft == count - bytesWritten
      invariant file.fdInode.i == i.(size := i.size + bytesWritten) && file.fdPos == Wrap(i.size - 1 + bytesWritten)
      invariant WrittenTo(disk, part.disk, blocks, i.size, buf[..bytesWritten])
      invariant firstWriteBlock || bytesWritten == count || Offset(i.size + bytesWritten) == 0
    {
      var secOffBytes := Offset(file.fdInode.i.size);
      var secLeftBytes := BLOCK_SIZE - secOffBytes;
      var chunkSize := if sizeLeft < secLeftBytes then sizeLeft else secLeftBytes;
      var n: int := file.fdInode.i.size;
      ghost var before := part.disk;
      StillFits(disk, before, blocks, i.size, buf[..bytesWritten], i.size + count, n, n + chunkSize);
      WriteChunk(part, blocks, n, buf[bytesWritten..bytesWritten + chunkSize], firstWriteBlock);
      WrittenMore(disk, before, part.disk, blocks, i.size, buf[..bytesWritten],
          buf[bytesWritten..bytesWritten + chunkSize]);
      assert buf[..bytesWritten] + buf[bytesWritten..bytesWritten + chunkSize] == buf[..bytesWritten + chunkSize];
      NextOffset(n, chunkSize, i.size + count);
      NextPosition(i.size - 1 + bytesWritten, chunkSize);
      firstWriteBlock := false;
      file.fdInode.i := file.fdInode.i.(size := file.fdInode.i.size + chunkSize);
      file.fdPos := Wrap(file.fdPos + chunkSize);
      bytesWritten := bytesWritten + chunkSize;
      sizeLeft := sizeLeft - chunkSize;
    }
  }

  lemma StillFits(disk: seq<Sector>, disk': seq<Sector>, blocks: seq<Word>, n: int, data: seq<Byte>, end: int, a: int,
      b: int)
    requires WrittenTo(disk, disk', blocks, n, data) && BlocksFor(disk, blocks, end) && 0 <= a <= b <= end
    ensures BlocksFor(disk', blocks, a) && BlocksFor(disk', blocks, b)
  {
    hide BlockBytes;
  }

  /** A chunk ends at a block boundary or ends the write. */
  lemma NextOffset(n: int, chunk: int, end: int)
    requires 0 <= n && chunk == Least(end - n, BLOCK_SIZE - Offset(n))
    ensures n + chunk == end || Offset(n + chunk) == 0
  {
  }

  lemma NextPosition(x: int, n: int)
    ensures Wrap(Wrap(x) + n) == Wrap(x + n)
  {
  }

  // ---------- the whole write ----------

  /** All that `file_write` does. */
  ghost predicate Appended(v: Volume, i: Inode, v': Volume, i': Inode, data: seq<Byte>)
    requires Appendable(v, i) && Appendable(v', i') && i.no < 0x100
  {
    ContentThere(v, i);
    ContentThere(v', i');
    && v'.sb == v.sb && |v'.disk| == |v.disk| && v'.inodeMap == v.inodeMap
    && i' == i.(size := i'.size, sectors := i'.sectors) && i'.size == i.size + |data|
    && (forall k :: 0 <= k < BlocksOf(i) ==> i'.sectors[k] == i.sectors[k])
    && BitsGrown(v, BlocksOf(i), v', i', BlocksOf(i'))
    && Content(v'.disk, i') == Content(v.disk, i) + data
    && (forall l :: 0 <= l < |v.disk| && IsData(v, l) && l !in i'.sectors ==> v'.disk[l] == v.disk[l])
    && Stored(v'.disk, v.sb.inodeTableLba, i.no) == Pure(i')
    && (forall m :: 0 <= m < MAX_INODES && m != i.no ==>
        SlotRead(v'.disk, v.sb.inodeTableLba, m) == SlotRead(v.disk, v.sb.inodeTableLba, m))
  }

  /** The blocks of an appendable file. */
  lemma BlocksThere(v: Volume, i: Inode, p: int, n: int)
    requires DirectOk(v, i, p) && 0 <= n <= BLOCK_SIZE * p
    ensures BlocksFor(v.disk, i.sectors[..p], n) && |v.disk| > 0
  {
    var b := i.sectors[..p];
    forall k, l | 0 <= k < l < |b| && BLOCK_SIZE * l < n ensures b[k] != b[l] {
      assert b[k] == i.sectors[k] && b[l] == i.sectors[l];
    }
    forall k | 0 <= k < |b| && BLOCK_SIZE * k < n ensures b[k] < |v.disk| {
      assert IsData(v, i.sectors[k]);
    }
  }

  lemma ContentThere(v: Volume, i: Inode)
    requires Appendable(v, i)
    ensures forall x :: 0 <= x < i.size ==> ByteThere(v.disk, i, x)
    ensures TableFits(v.disk, v.sb.inodeTableLba)
  {
    hide BlocksFor, BlockBytes, HoldsBitmap, ByteThere;
    BlocksThere(v, i, BlocksOf(i), i.size);
    ContentIsBlockBytes(v.disk, i, BlocksOf(i));
  }

  lemma ContentIsBytes(v: Volume, i: Inode)
    requires Appendable(v, i)
    ensures forall x :: 0 <= x < i.size ==> ByteThere(v.disk, i, x)
    ensures BlocksFor(v.disk, i.sectors[..BlocksOf(i)], i.size)
            && Content(v.disk, i) == BlockBytes(v.disk, i.sectors[..BlocksOf(i)], i.size)
  {
    hide BlocksFor, BlockBytes, HoldsBitmap, ByteThere;
    BlocksThere(v, i, BlocksOf(i), i.size);
    ContentIsBlockBytes(v.disk, i, BlocksOf(i));
  }

  /** Growing does not touch the bytes there are. */
  lemma GrowthKeepsBytes(v: Volume, i: Inode, p: int, u: Volume, i1: Inode, q: int, n: int)
    requires DirectOk(v, i, p) && Grown(v, i, p, u, i1, q) && 0 <= n <= BLOCK_SIZE * p
    ensures BlocksFor(v.disk, i.sectors[..p], n) && BlocksFor(u.disk, i1.sectors[..q], n)
    ensures BlockBytes(u.disk, i1.sectors[..q], n) == BlockBytes(v.disk, i.sectors[..p], n)
  {
    hide HoldsBitmap, BitsGrown;
    BlocksThere(v, i, p, n);
    BlocksThere(u, i1, q, n);
    var a, b := BlockBytes(v.disk, i.sectors[..p], n), BlockBytes(u.disk, i1.sectors[..q], n);
    forall x | 0 <= x < n ensures b[x] == a[x] {
      var k := x / BLOCK_SIZE;
      assert 0 <= k < p && i1.sectors[k] == i.sectors[k] && IsData(v, i.sectors[k]);
    }
  }

  /** After the data has been written to the file's own blocks. */
  lemma WriteKeepsVolume(u: Volume, i: Inode, q: int, d: seq<Sector>, n: int, data: seq<Byte>)
    requires VolumeOk(u) && DirectOk(u, i, q) && WrittenTo(u.disk, d, i.sectors[..q], n, data)
    ensures VolumeOk(u.(disk := d))
    ensures forall l :: 0 <= l < |d| && !IsData(u, l) ==> d[l] == u.disk[l]
  {
    hide HoldsBitmap, BlocksFor, BlockBytes;
    forall l | 0 <= l < |d| && !IsData(u, l) ensures d[l] == u.disk[l] {
      assert l !in i.sectors[..q];
    }
    WriteKeepsBitmaps(u, u.(disk := d));
  }

  lemma SameBlocksSameBytes(d: seq<Sector>, d': seq<Sector>, blocks: seq<Word>, n: int)
    requires BlocksFor(d, blocks, n) && |d'| == |d|
    requires forall k :: 0 <= k < |blocks| && blocks[k] < |d| ==> d'[blocks[k]] == d[blocks[k]]
    ensures BlocksFor(d', blocks, n) && BlockBytes(d', blocks, n) == BlockBytes(d, blocks, n)
  {
    var a, b := BlockBytes(d', blocks, n), BlockBytes(d, blocks, n);
    forall x | 0 <= x < n ensures a[x] == b[x] {
      assert BLOCK_SIZE * (x / BLOCK_SIZE) < n;
    }
  }

  /** The bytes after the write, and the data sectors it leaves alone. */
  lemma AppendedBytes(v: Volume, i: Inode, u: Volume, i1: Inode, d: seq<Sector>, v': Volume, i2: Inode, data: seq<Byte>)
    requires Appendable(v, i) && Appendable(v', i2) && i2 == i1.(size := i2.size) && i2.size == i.size + |data|
             && i2.sectors[0] != 0
    requires Grown(v, i, BlocksOf(i), u, i1, BlocksOf(i2))
             && WrittenTo(u.disk, d, i1.sectors[..BlocksOf(i2)], i.size, data)
    requires v'.sb == v.sb && |v'.disk| == |d| && forall l :: 0 <= l < |d| && !InTable(v, l) ==> v'.disk[l] == d[l]
    ensures (forall x :: 0 <= x < i.size ==> ByteThere(v.disk, i, x))
            && (forall x :: 0 <= x < i2.size ==> ByteThere(v'.disk, i2, x))
    ensures Content(v'.disk, i2) == Content(v.disk, i) + data
    ensures forall l :: 0 <= l < |v.disk| && IsData(v, l) && l !in i2.sectors ==> v'.disk[l] == v.disk[l]
  {
    hide HoldsBitmap, BlocksFor, BlockBytes, ByteThere, Content, BitsGrown;
    var q := BlocksOf(i2);
    ContentIsBytes(v, i);
    ContentIsBytes(v', i2);
    GrowthKeepsBytes(v, i, BlocksOf(i), u, i1, q, i.size);
    var blocks := i2.sectors[..q];
    forall k | 0 <= k < |blocks| && blocks[k] < |d| ensures v'.disk[blocks[k]] == d[blocks[k]] {
      assert blocks[k] == i2.sectors[k] && IsData(v', i2.sectors[k]);
    }
    SameBlocksSameBytes(d, v'.disk, blocks, i2.size);
    forall l | 0 <= l < |v.disk| && IsData(v, l) && l !in i2.sectors ensures v'.disk[l] == v.disk[l] {
      assert l !in blocks;
    }
  }

  lemma AppendedSlots(v: Volume, u: Volume, d: seq<Sector>, i: Inode)
    requires VolumeOk(v) && SameTableAndData(v, u) && IsInode(i) && i.no < 0x100 && |d| == |u.disk|
    requires forall l :: 0 <= l < |d| && !IsData(u, l) ==> d[l] == u.disk[l]
    ensures TableFits(d, v.sb.inodeTableLba) && TableFits(v.disk, v.sb.inodeTableLba)
    ensures var d' := Synced(d, v.sb.inodeTableLba, i);
            && Stored(d', v.sb.inodeTableLba, i.no) == Pure(i)
            && forall m :: 0 <= m < MAX_INODES && m != i.no ==>
                SlotRead(d', v.sb.inodeTableLba, m) == SlotRead(v.disk, v.sb.inodeTableLba, m)
  {
    hide HoldsBitmap, SlotRead, SlotWritten, Encode, Decode;
    SyncedSlots(d, v.sb.inodeTableLba, i, i.no);
    forall m | 0 <= m < MAX_INODES && m != i.no
      ensures SlotRead(Synced(d, v.sb.inodeTableLba, i), v.sb.inodeTableLba, m)
              == SlotRead(v.disk, v.sb.inodeTableLba, m)
    {
      SlotRoundTrip(d, v.sb.inodeTableLba, i.no, Encode(Pure(i)), m);
      SameTableSameSlot(v.disk, d, v.sb.inodeTableLba, m);
    }
  }

  /** After growing, writing and syncing the file is one that can be appended to again. */
  lemma AppendableAgain(v: Volume, i: Inode, u: Volume, i1: Inode, d: seq<Sector>, i2: Inode, data: seq<Byte>)
    requires Appendable(v, i) && IsInode(i2) && i2 == i1.(size := i2.size)
             && i2.size == i.size + |data| < 12 * BLOCK_SIZE
    requires Grown(v, i, BlocksOf(i), u, i1, i2.size / BLOCK_SIZE + 1) && TableFits(d, v.sb.inodeTableLba)
    requires WrittenTo(u.disk, d, i1.sectors[..i2.size / BLOCK_SIZE + 1], i.size, data)
    ensures Appendable(u.(disk := Synced(d, u.sb.inodeTableLba, i2)), i2) && i2.sectors[0] != 0
    ensures |d| == |u.disk| && u.sb == v.sb
    ensures forall l :: 0 <= l < |d| && !InTable(u, l) ==> Synced(d, u.sb.inodeTableLba, i2)[l] == d[l]
    ensures forall l :: 0 <= l < |d| && !IsData(u, l) ==> d[l] == u.disk[l]
  {
    hide HoldsBitmap, BlocksFor, BlockBytes, BitsGrown, Synced, Layout;
    var q := i2.size / BLOCK_SIZE + 1;
    var w, v' := u.(disk := d), u.(disk := Synced(d, u.sb.inodeTableLba, i2));
    WriteKeepsVolume(u, i1, q, d, i.size, data);
    SyncedOutside(w, i2);
    WriteKeepsBitmaps(w, v');
    SameDirect(u, i1, v', i2, q);
    FirstBitStays(v, BlocksOf(i), u, i1, q);
  }

  /** Growing, writing and syncing add up to an append. */
  lemma AppendAddsUp(v: Volume, i: Inode, u: Volume, i1: Inode, d: seq<Sector>, i2: Inode, data: seq<Byte>)
    requires Appendable(v, i) && i.no < 0x100 && IsInode(i2) && i2 == i1.(size := i2.size)
             && i2.size == i.size + |data| < 12 * BLOCK_SIZE
    requires Grown(v, i, BlocksOf(i), u, i1, i2.size / BLOCK_SIZE + 1) && TableFits(d, v.sb.inodeTableLba)
    requires WrittenTo(u.disk, d, i1.sectors[..i2.size / BLOCK_SIZE + 1], i.size, data)
    ensures var v' := u.(disk := Synced(d, u.sb.inodeTableLba, i2)); Appendable(v', i2) && Appended(v, i, v', i2, data)
  {
    AppendableAgain(v, i, u, i1, d, i2, data);
    var v' := u.(disk := Synced(d, u.sb.inodeTableLba, i2));
    assert VolumeOk(v) && SameTableAndData(v, u) && i1 == i.(sectors := i1.sectors) && u.inodeMap == v.inodeMap by {
      hide Appended, Layout, DirectOk, BitsGrown;
    }
    assert (forall k :: 0 <= k < BlocksOf(i) ==> i2.sectors[k] == i.sectors[k])
        && BitsGrown(v, BlocksOf(i), u, i1, BlocksOf(i2));
    hide Appendable, Grown, HoldsBitmap, BlocksFor, BlockBytes, ByteThere, Content, SlotRead, SlotWritten;
    hide Encode, Decode, BitsGrown, Synced, Stored, Layout, TableFits, WrittenTo, VolumeOk;
    AppendedBytes(v, i, u, i1, d, v', i2, data);
    BitsGrownAnyDisk(v, BlocksOf(i), u, i1, BlocksOf(i2), v', i2);
    AppendedSlots(v, u, d, i2);
  }

  /** inode_sync writes in the inode table only. */
  lemma SyncedOutside(w: Volume, i: Inode)
    requires TableFits(w.disk, w.sb.inodeTableLba) && IsInode(i)
    ensures var d := Synced(w.disk, w.sb.inodeTableLba, i);
            |d| == |w.disk| && forall l :: 0 <= l < |d| && !InTable(w, l) ==> d[l] == w.disk[l]
  {
    hide SlotWritten, Encode;
    SlotWrittenBytes(w.disk, w.sb.inodeTableLba, i.no % 0x100, Encode(Pure(i)));
  }

  lemma FirstBitStays(v: Volume, p: int, u: Volume, i1: Inode, q: int)
    requires BitsGrown(v, p, u, i1, q) && |v.blockMap| > 0 && v.blockMap[0]
    ensures |u.blockMap| > 0 && u.blockMap[0]
  {
  }

  lemma BitsGrownAnyDisk(v: Volume, p: int, u: Volume, i1: Inode, q: int, v': Volume, i2: Inode)
    requires BitsGrown(v, p, u, i1, q) && v'.blockMap == u.blockMap && i2.sectors == i1.sectors
    ensures BitsGrown(v, p, v', i2, q)
  {
  }

  lemma SameDirect(u: Volume, i1: Inode, v': Volume, i2: Inode, q: int)
    requires DirectOk(u, i1, q) && i2 == i1.(size := i2.size) && v' == u.(disk := v'.disk) && |v'.disk| == |u.disk|
             && q > 0
    ensures DirectOk(v', i2, q) && i2.sectors[0] != 0
  {
  }

  /** `file_write` below 12 blocks, for an inode whose number fits a byte and whose slot lies in one
      sector (the source hands inode_sync a 512-byte buffer): exactly buf is appended, exactly the
      new blocks are allocated, in memory and on the disk, and nothing else of the data or of the
      inode table changes. */
  method FileWrite(part: Partition, file: File, buf: array<Byte>, count: Word) returns (r: int)
    requires Appendable(part.V(), file.fdInode.i) && count <= buf.Length
             && file.fdInode.i.size + count < 12 * BLOCK_SIZE
    requires CountClear(part.blockMap) >= (file.fdInode.i.size + count) / BLOCK_SIZE + 1 - BlocksOf(file.fdInode.i)
    requires file.fdInode.i.no < 0x100 && !Locate(part.sb.inodeTableLba, file.fdInode.i.no).twoSec
    modifies part`disk, part`blockMap, file`fdPos, file.fdInode
    ensures r == count && Appendable(part.V(), file.fdInode.i) && file.fdInode.i.sectors[0] != 0
    ensures CountClear(part.blockMap)
            == old(CountClear(part.blockMap)) - ((old(file.fdInode.i.size) + count) / BLOCK_SIZE
            + 1 - old(BlocksOf(file.fdInode.i)))
    ensures Appended(old(part.V()), old(file.fdInode.i), part.V(), file.fdInode.i, buf[..count])
    ensures file.fdPos == Wrap(old(file.fdInode.i.size) + count - 1)
    ensures old(part.NodesOk()) ==> part.Valid()
  {
    hide Appendable, Appended, Grown, WrittenTo, BlocksFor, BlockBytes, Synced, Wrap, Locate, VolumeOk;
    ghost var v, i := part.V(), file.fdInode.i;
    AppendableFacts(v, i);
    if file.fdInode.i.size + count > BLOCK_SIZE * 140 {
      return -1;
    }
    var size: int := file.fdInode.i.size;
    var q := (size + count) / BLOCK_SIZE + 1;
    Grow(part, file.fdInode, count);
    ghost var u, i1 := part.V(), file.fdInode.i;
    GrownFits(v, i, BlocksOf(i), u, i1, q, size + count);
    WriteData(part, file, file.fdInode.i.sectors[..q], buf, count);
    ghost var d, i2 := part.disk, file.fdInode.i;
    WrittenLength(u.disk, d, i1.sectors[..q], size, buf[..count]);
    AppendAddsUp(v, i, u, i1, d, i2, buf[..count]);
    part.InodeSync(file.fdInode.i, 512);
    r := count;
    AppendedIdentity(v, i, part.V(), file.fdInode.i, buf[..count]);
    if old(part.NodesOk()) {
      part.NodeChanged(file.fdInode);
    }
  }

  lemma AppendedIdentity(v: Volume, i: Inode, v': Volume, i': Inode, data: seq<Byte>)
    requires Appendable(v, i) && Appendable(v', i') && i.no < 0x100 && Appended(v, i, v', i', data)
    ensures SameIdentity(i, i') && VolumeOk(v')
  {
  }

  lemma AppendableFacts(v: Volume, i: Inode)
    requires Appendable(v, i)
    ensures IsInode(i)
  {
  }

  lemma GrownFits(v: Volume, i: Inode, p: int, u: Volume, i1: Inode, q: int, n: int)
    requires Grown(v, i, p, u, i1, q) && 0 <= n && q == n / BLOCK_SIZE + 1
    ensures IsInode(i1) && i1.sectors[0] != 0 && q <= 12 && BlocksFor(u.disk, i1.sectors[..q], n) && u.sb == v.sb
            && TableFits(u.disk, u.sb.inodeTableLba)
    ensures i1 == i.(sectors := i1.sectors)
  {
    hide HoldsBitmap, BlocksFor, BitsGrown;
    BlocksThere(u, i1, q, n);
  }

  lemma WrittenLength(disk: seq<Sector>, d: seq<Sector>, blocks: seq<Word>, n: int, data: seq<Byte>)
    requires WrittenTo(disk, d, blocks, n, data)
    ensures |d| == |disk|
  {
  }

  // ---------- other files, and reading back ----------

  /** Every block of the inode has its bit set, and is not one of the first p direct blocks of i. */
  ghost predicate Foreign(v: Volume, i: Inode, p: int, j: Inode) {
    && IsInode(i) && IsInode(j) && j.sectors[12] < |v.disk| && 0 <= p <= 12
    && forall l :: IsBlockOf(v.disk, j, l) ==>
         IsData(v, l) && l - v.sb.dataStartLba < |v.blockMap| && v.blockMap[l - v.sb.dataStartLba]
             && forall k :: 0 <= k < p ==> i.sectors[k] != l
  }

  /** A write leaves the bytes and the blocks of every other file unchanged. */
  lemma OtherFileUnchanged(v: Volume, i: Inode, v': Volume, i': Inode, data: seq<Byte>, j: Inode)
    requires Appendable(v, i) && Appendable(v', i') && i.no < 0x100 && Appended(v, i, v', i', data) && FileOk(v, j)
    requires Foreign(v, i, BlocksOf(i), j)
    ensures (forall x :: 0 <= x < j.size ==> ByteThere(v.disk, j, x))
            && (forall x :: 0 <= x < j.size ==> ByteThere(v'.disk, j, x))
    ensures AllBlocks(v'.disk, j) == AllBlocks(v.disk, j) && Content(v'.disk, j) == Content(v.disk, j)
  {
    hide HoldsBitmap, Entries, SlotRead, Stored;
    forall l | IsBlockOf(v.disk, j, l) ensures v'.disk[l] == v.disk[l] {
      ForeignSector(v, i, v', i', data, j, l);
    }
    BytesThere(v, j);
    if j.sectors[12] != 0 {
      assert IsBlockOf(v.disk, j, j.sectors[12]);
      SameEntries(v.disk, v'.disk, j.sectors[12]);
    }
    hide Appendable, Appended, Foreign;
    forall x | 0 <= x < j.size ensures ByteThere(v'.disk, j, x) && ByteAt(v'.disk, j, x) == ByteAt(v.disk, j, x) {
      BlockIsData(v, j, x / BLOCK_SIZE);
      assert BlockAt(v.disk, j, x / BLOCK_SIZE) in AllBlocks(v.disk, j);
      assert IsBlockOf(v.disk, j, BlockAt(v.disk, j, x / BLOCK_SIZE));
    }
  }

  lemma SameEntries(d: seq<Sector>, d': seq<Sector>, l: int)
    requires 0 <= l < |d| && |d'| == |d| && d'[l] == d[l]
    ensures Entries(d', l) == Entries(d, l)
  {
  }

  /** A sector of another file is neither an old nor a new block of this one. */
  lemma ForeignSector(v: Volume, i: Inode, v': Volume, i': Inode, data: seq<Byte>, j: Inode, l: int)
    requires Appendable(v, i) && Appendable(v', i') && i.no < 0x100 && Appended(v, i, v', i', data)
    requires Foreign(v, i, BlocksOf(i), j) && IsBlockOf(v.disk, j, l)
    ensures 0 <= l < |v.disk| && |v'.disk| == |v.disk| && v'.disk[l] == v.disk[l]
  {
    hide HoldsBitmap, Entries, SlotRead, Stored, Content, ByteThere;
    assert IsData(v, l) && v.blockMap[l - v.sb.dataStartLba];
    forall k | 0 <= k < 13 ensures i'.sectors[k] != l {}
  }

  /** What was written can be read: the file after a write is one that file_read accepts. */
  lemma AppendableIsReadable(v: Volume, i: Inode)
    requires Appendable(v, i)
    ensures FileOk(v, i)
  {
    hide HoldsBitmap, Entries;
    forall l | IsBlockOf(v.disk, i, l) ensures IsData(v, l) && l != v.sb.dataStartLba {
      var k :| 0 <= k < 12 && i.sectors[..12][k] == l;
      assert i.sectors[k] == l;
    }
  }

  lemma AppendedContent(v: Volume, i: Inode, v': Volume, i': Inode, data: seq<Byte>)
    requires Appendable(v, i) && Appendable(v', i') && i.no < 0x100 && Appended(v, i, v', i', data)
    ensures (forall x :: 0 <= x < i.size ==> ByteThere(v.disk, i, x))
            && (forall x :: 0 <= x < i'.size ==> ByteThere(v'.disk, i', x))
    ensures Content(v'.disk, i') == Content(v.disk, i) + data && i'.size == i.size + |data| && i'.no == i.no
            && v'.sb == v.sb
  {
    hide Appendable, Content, BitsGrown, IsData, Stored, SlotRead, ByteThere;
    ContentThere(v, i);
    ContentThere(v', i');
  }

  /** Two writes and a read from where the first began: what was written is read, in order. */
  method WritesReadBack(part: Partition, file: File, a: array<Byte>, b: array<Byte>, buf: array<Byte>) returns (r: int)
    requires Appendable(part.V(), file.fdInode.i) && buf.Length == a.Length + b.Length > 0 && buf != a && buf != b
    requires file.fdInode.i.size + a.Length + b.Length < 12 * BLOCK_SIZE
    requires CountClear(part.blockMap) >= (file.fdInode.i.size + a.Length + b.Length) / BLOCK_SIZE
             + 1 - BlocksOf(file.fdInode.i)
    requires file.fdInode.i.no < 0x100 && !Locate(part.sb.inodeTableLba, file.fdInode.i.no).twoSec
    modifies part`disk, part`blockMap, file`fdPos, file.fdInode, buf
    ensures r == buf.Length && buf[..] == a[..] + b[..]
            && file.fdPos == file.fdInode.i.size == old(file.fdInode.i.size) + buf.Length
  {
    hide Appendable, Appended, Wrap, Locate, Content, ByteThere, FileOk;
    ghost var v0, i0 := part.V(), file.fdInode.i;
    var start := file.fdInode.i.size;
    r := FileWrite(part, file, a, a.Length);
    ghost var v1, i1 := part.V(), file.fdInode.i;
    assert a[..a.Length] == a[..];
    AppendedContent(v0, i0, v1, i1, a[..]);
    r := FileWrite(part, file, b, b.Length);
    assert b[..b.Length] == b[..];
    AppendedContent(v1, i1, part.V(), file.fdInode.i, b[..]);
    AppendableIsReadable(part.V(), file.fdInode.i);
    file.fdPos := start;
    r := FileRead(part, file, buf, buf.Length);
    assert buf[..buf.Length] == buf[..];
  }

  // ---------- what is left after a close ----------

  /** The file with this number, in memory if it is open and on the disk if not, has these bytes. */
  ghost predicate HoldsFile(part: Partition, no: Word, bytes: seq<Byte>)
    requires TableFits(part.disk, part.sb.inodeTableLba) && no < MAX_INODES
    reads part, part.openInodes
  {
    HasBytes(part.V(), part.Current(no), no, bytes)
  }

  ghost predicate HasBytes(v: Volume, i: Inode, no: Word, bytes: seq<Byte>) {
    Appendable(v, i) && i.no == no && (ContentThere(v, i); Content(v.disk, i) == bytes)
  }

  lemma HeldFacts(v: Volume, i: Inode, no: Word, bytes: seq<Byte>)
    requires HasBytes(v, i, no, bytes)
    ensures Appendable(v, i) && IsInode(i) && i.no == no && i.size == |bytes| && TableFits(v.disk, v.sb.inodeTableLba)
  {
    ContentThere(v, i);
  }

  lemma OpenedInode(i: Inode, i': Inode)
    requires IsInode(i) && i' == i.(openCnts := i'.openCnts)
    ensures IsInode(i') && Pure(i') == Pure(i) && (IsInode(i) ==> BlocksOf(i') == BlocksOf(i))
  {
  }

  lemma AppendedFile(v: Volume, i: Inode, v': Volume, i': Inode, no: Word, bytes: seq<Byte>, data: seq<Byte>)
    requires HasBytes(v, i, no, bytes) && Appendable(v, i) && Appendable(v', i') && no < 0x100
             && i.no == no && Appended(v, i, v', i', data)
    ensures HasBytes(v', i', no, bytes + data) && TableFits(v'.disk, v.sb.inodeTableLba) && v'.sb == v.sb
    ensures Stored(v'.disk, v.sb.inodeTableLba, no) == Pure(i') && IsInode(i') && i'.no == no
    ensures i'.openCnts == i.openCnts
  {
    hide Appendable, Content, BitsGrown, IsData, Stored, SlotRead, ByteThere, Pure;
    ContentThere(v, i);
    ContentThere(v', i');
    AppendableFacts(v', i');
  }

  /** The count and the flag do not matter to the bytes. */
  lemma SameFile(v: Volume, i: Inode, i': Inode, no: Word, bytes: seq<Byte>)
    requires HasBytes(v, i, no, bytes) && IsInode(i') && Pure(i') == Pure(i)
    ensures HasBytes(v, i', no, bytes)
  {
    ContentThere(v, i);
    hide HoldsBitmap;
    ContentThere(v, i');
  }

  lemma PureTwice(i: Inode)
    requires IsInode(i)
    ensures Pure(Pure(i)) == Pure(i) && IsInode(Pure(i))
  {
  }

  /** A close leaves the file in memory if others have it open, and on the disk in any case. */
  method CloseFile(part: Partition, node: MemInode, no: Word, ghost bytes: seq<Byte>)
    requires part.Valid() && node in part.openInodes && TableFits(part.disk, part.sb.inodeTableLba) && no < MAX_INODES
    requires HasBytes(part.V(), node.i, no, bytes) && Stored(part.disk, part.sb.inodeTableLba, no) == Pure(node.i)
    modifies part`openInodes, part`opens, node
    ensures part.Valid() && HoldsFile(part, no, bytes)
    ensures old(node.i.openCnts) > 0 && CountSet(old(part.opens), part.opens, no, old(node.i.openCnts) - 1)
  {
    hide Appendable, HasBytes, VolumeOk, Pure, Stored, ListOk;
    ghost var i := node.i;
    HeldFacts(part.V(), i, no, bytes);
    hide IsInode;
    part.InodeClose(node);
    if node in part.openInodes {
      part.CurrentOfOpen(node);
      OpenedInode(i, node.i);
    } else {
      assert Count(part.opens, no) == 0;
      part.CurrentOfClosed(no);
      PureTwice(i);
    }
    SameFile(part.V(), i, part.Current(no), no, bytes);
  }

  /** Opening a file, appending to it and closing it again: whoever opens it next finds the old bytes
      followed by the new ones, be it in memory or on the disk, and every inode is open as often as
      before. */
  method OpenWriteClose(part: Partition, no: Word, buf: array<Byte>, count: Word, ghost before: seq<Byte>)
    requires part.Valid() && no < 0x100 && Count(part.opens, no) < 0xFFFF_FFFF
             && !Locate(part.sb.inodeTableLba, no).twoSec
    requires TableFits(part.disk, part.sb.inodeTableLba) && HoldsFile(part, no, before)
    requires count <= buf.Length && |before| + count < 12 * BLOCK_SIZE
    requires CountClear(part.blockMap) >= (|before| + count) / BLOCK_SIZE + 1 - BlocksOf(part.Current(no))
    modifies part, part.openInodes
    ensures part.Valid() && (forall x: Word :: Count(part.opens, x) == old(Count(part.opens, x)))
    ensures TableFits(part.disk, part.sb.inodeTableLba) && HoldsFile(part, no, before + buf[..count])
  {
    hide Appendable, Appended, Locate, HasBytes, VolumeOk, IsInode, Pure, CountSet, Count;
    hide Partition.NodesOk, Partition.Current;
    ghost var cur, o0 := part.Current(no), part.opens;
    HeldFacts(part.V(), cur, no, before);
    var node := part.InodeOpen(no);
    ghost var v, i, o1 := part.V(), node.i, part.opens;
    OpenedInode(cur, i);
    SameFile(v, cur, i, no, before);
    HeldFacts(v, i, no, before);
    var file := new File(node);
    var r := FileWrite(part, file, buf, count);
    ghost var i1 := node.i;
    AppendedFile(v, i, part.V(), i1, no, before, buf[..count]);
    ghost var c := Count(o0, no);
    assert part.opens == o1 && i1.openCnts - 1 == c;
    CloseFile(part, node, no, before + buf[..count]);
    OpensBack(o0, o1, part.opens, no, c);
  }
}
