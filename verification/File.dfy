/** Regular files (v1-src/fileSystem/file.c:196-449): a file's blocks refine a sequence of bytes. */
module Files {
  import opened Common
  import opened Disk
  import opened Inodes
  import opened Volumes

  const BLOCK_SIZE := 512

  /** The block of a file at an index; 0 stands for none. */
  function BlockAt(disk: seq<Sector>, i: Inode, idx: int): Word
    requires IsInode(i) && i.sectors[12] < |disk|
  {
    if 0 <= idx < |AllBlocks(disk, i)| then AllBlocks(disk, i)[idx] else 0
  }

  /** Where the block numbers stand: the first 12 in the inode, the next 128 as words of the sector that
      the inode names last, the low byte first. */
  lemma BlockLayout(disk: seq<Sector>, i: Inode, idx: int)
    requires IsInode(i) && i.sectors[12] < |disk| && 0 <= idx < 140
    ensures BlockAt(disk, i, idx)
            == if idx < 12 then i.sectors[idx] else if i.sectors[12] == 0 then 0
               else var s, at := disk[i.sectors[12]], 4 * (idx - 12);
                 FourBytes(s[at], s[at + 1], s[at + 2], s[at + 3])
  {
    if i.sectors[12] != 0 && idx >= 12 {
      assert AllBlocks(disk, i)[idx] == Entries(disk, i.sectors[12])[idx - 12];
    }
  }

  /** Every block up to the one of the next byte is there, in the data region. */
  ghost predicate FileOk(v: Volume, i: Inode) {
    && Layout(v) && IsInode(i) && i.size < BLOCK_SIZE * 140 && BlocksInData(v, i)
    && (i.size > 0 ==> forall idx :: 0 <= idx <= i.size / BLOCK_SIZE ==> BlockAt(v.disk, i, idx) != 0)
  }

  predicate ByteThere(disk: seq<Sector>, i: Inode, x: int) {
    IsInode(i) && i.sectors[12] < |disk| && BlockAt(disk, i, x / BLOCK_SIZE) < |disk|
  }

  function ByteAt(disk: seq<Sector>, i: Inode, x: int): Byte
    requires 0 <= x && ByteThere(disk, i, x)
  {
    disk[BlockAt(disk, i, x / BLOCK_SIZE)][x % BLOCK_SIZE]
  }

  /** The bytes of a file. */
  function Content(disk: seq<Sector>, i: Inode): (r: seq<Byte>)
    requires forall x :: 0 <= x < i.size ==> ByteThere(disk, i, x)
    ensures |r| == i.size
  {
    seq(i.size, x requires 0 <= x < i.size => ByteAt(disk, i, x))
  }

  /** Where the bytes of a file lie: 512 to a block, in order, each block found as `BlockLayout` says. */
  lemma ContentLayout(disk: seq<Sector>, i: Inode, x: int)
    requires 0 <= x < i.size && i.size <= BLOCK_SIZE * 140
    requires forall y :: 0 <= y < i.size ==> ByteThere(disk, i, y)
    ensures IsInode(i) && i.sectors[12] < |disk|
    ensures var idx := x / 512;
            var l := if idx < 12 then i.sectors[idx] else if i.sectors[12] == 0 then 0
                     else var s, at := disk[i.sectors[12]], 4 * (idx - 12);
                       FourBytes(s[at], s[at + 1], s[at + 2], s[at + 3]);
            0 <= l < |disk| && Content(disk, i)[x] == disk[l][x % 512]
  {
    assert ByteThere(disk, i, x);
    BlockLayout(disk, i, x / 512);
    hide BlockAt;
  }

  lemma BytesThere(v: Volume, i: Inode)
    requires FileOk(v, i)
    ensures forall x :: 0 <= x < i.size ==> ByteThere(v.disk, i, x)
  {
    hide Entries;
    forall x | 0 <= x < i.size ensures ByteThere(v.disk, i, x) {
      BlockIsData(v, i, x / BLOCK_SIZE);
    }
  }

  lemma BlockIsData(v: Volume, i: Inode, idx: int)
    requires FileOk(v, i) && 0 <= idx <= i.size / BLOCK_SIZE && i.size > 0
    ensures IsData(v, BlockAt(v.disk, i, idx)) && 0 <= BlockAt(v.disk, i, idx) < |v.disk|
  {
    hide Entries;
    assert BlockAt(v.disk, i, idx) in AllBlocks(v.disk, i);
    assert IsBlockOf(v.disk, i, BlockAt(v.disk, i, idx));
  }

  /** An open file: `struct file`. */
  class File {
    var fdPos: Word
    const fdInode: MemInode

    constructor (node: MemInode)
      ensures fdInode == node && fdPos == 0
    {
      fdInode, fdPos := node, 0;
    }
  }

  // ---------- file_read ----------

  /** The block numbers that file_read gathers for the blocks start to end, by its four branches. */
  method ReadBlocks(part: Partition, i: Inode, start: int, end: int) returns (allBlocks: seq<Word>)
    requires FileOk(part.V(), i) && 0 <= start <= end < 139 && (i.size > 0 ==> end <= i.size / BLOCK_SIZE)
             && (i.size == 0 ==> end == 0)
    ensures |allBlocks| == 140
    ensures i.size > 0 ==> forall idx :: start <= idx <= end ==> allBlocks[idx] == BlockAt(part.disk, i, idx)
  {
    hide Entries, Layout;
    allBlocks := seq(140, k => 0);
    if end - start == 0 {
      assert start == end;
      if end < 12 {
        allBlocks := allBlocks[end := i.sectors[end]];
      } else {
        allBlocks := allBlocks[..12] + Entries(part.disk, i.sectors[12]);
      }
    } else if end < 12 {
      var blockIdx := start;
      while blockIdx <= end
        invariant start <= blockIdx <= end + 1 && |allBlocks| == 140
        invariant forall idx :: start <= idx < blockIdx ==> allBlocks[idx] == i.sectors[idx]
      {
        allBlocks := allBlocks[blockIdx := i.sectors[blockIdx]];
        blockIdx := blockIdx + 1;
      }
    } else {
      assert BlockAt(part.disk, i, 12) != 0;
      if start < 12 {
        var blockIdx := start;
        while blockIdx < 12
          invariant start <= blockIdx <= 12 && |allBlocks| == 140
          invariant forall idx :: start <= idx < blockIdx ==> allBlocks[idx] == i.sectors[idx]
        {
          allBlocks := allBlocks[blockIdx := i.sectors[blockIdx]];
          blockIdx := blockIdx + 1;
        }
      }
      assert i.sectors[12] != 0;
      allBlocks := allBlocks[..12] + Entries(part.disk, i.sectors[12]);
    }
  }

  function Least(a: int, b: int): int { if a < b then a else b }

  lemma ChunkAppended(content: seq<Byte>, pos: int, done: int, n: int, part: seq<Byte>)
    requires 0 <= pos && 0 <= done && 0 <= n && pos + done + n <= |content|
             && part == content[pos + done..pos + done + n]
    ensures forall k :: 0 <= k < n ==> part[k] == content[pos + (done + k)]
  {
  }

  /** One pass of the loop of file_read: at most a block's rest goes to the buffer. */
  method ReadChunk(part: Partition, i: Inode, allBlocks: seq<Word>, pos: int, sizeLeft: int, buf: array<Byte>, at: int)
    returns (chunkSize: int)
    requires FileOk(part.V(), i) && |allBlocks| == 140 && 0 <= pos && 0 < sizeLeft && pos + sizeLeft <= i.size
             && 0 <= at && at + sizeLeft <= buf.Length
    requires pos / BLOCK_SIZE < 140 && allBlocks[pos / BLOCK_SIZE] == BlockAt(part.disk, i, pos / BLOCK_SIZE)
    requires forall x :: 0 <= x < i.size ==> ByteThere(part.disk, i, x)
    modifies buf
    ensures chunkSize == Least(sizeLeft, BLOCK_SIZE - pos % BLOCK_SIZE)
    ensures forall k :: 0 <= k < buf.Length ==>
      buf[k] == if at <= k < at + chunkSize then Content(part.disk, i)[pos..pos + chunkSize][k - at] else old(buf[k])
  {
    hide FileOk, Entries, ByteAt, ByteThere, BlockAt;
    var secIdx := pos / BLOCK_SIZE;
    BlockIsData(part.V(), i, secIdx);
    var secLba := allBlocks[secIdx];
    var secOffBytes := pos % BLOCK_SIZE;
    var secLeftBytes := BLOCK_SIZE - secOffBytes;
    chunkSize := if sizeLeft < secLeftBytes then sizeLeft else secLeftBytes;
    var ioBuf: seq<Byte> := part.disk[secLba];
    ChunkBytes(part.disk, i, pos, chunkSize);
    CopyChunk(buf, at, ioBuf[secOffBytes..secOffBytes + chunkSize]);
  }

  lemma SizeBelow(v: Volume, i: Inode)
    requires FileOk(v, i)
    ensures i.size < BLOCK_SIZE * 140
  {
  }

  /** `memcpy` of a chunk into the caller's buffer. */
  method CopyChunk(buf: array<Byte>, at: int, data: seq<Byte>)
    requires 0 <= at && at + |data| <= buf.Length
    modifies buf
    ensures forall k :: 0 <= k < buf.Length ==> buf[k] == if at <= k < at + |data| then data[k - at] else old(buf[k])
  {
    var k := 0;
    while k < |data|
      invariant 0 <= k <= |data|
      invariant forall j :: 0 <= j < buf.Length ==> buf[j] == if at <= j < at + k then data[j - at] else old(buf[j])
    {
      buf[at + k] := data[k];
      k := k + 1;
    }
  }

  /** The bytes of a chunk that stays within one block. */
  lemma ChunkBytes(disk: seq<Sector>, i: Inode, pos: int, n: int)
    requires 0 <= pos && 0 < n <= BLOCK_SIZE - pos % BLOCK_SIZE && pos + n <= i.size
    requires forall x :: 0 <= x < i.size ==> ByteThere(disk, i, x)
    ensures IsInode(i) && i.sectors[12] < |disk| && 0 <= BlockAt(disk, i, pos / BLOCK_SIZE) < |disk|
    ensures Content(disk, i)[pos..pos + n]
            == disk[BlockAt(disk, i, pos / BLOCK_SIZE)][pos % BLOCK_SIZE..pos % BLOCK_SIZE + n]
  {
    hide BlockAt;
    assert ByteThere(disk, i, pos);
    var part := Content(disk, i)[pos..pos + n];
    var block := disk[BlockAt(disk, i, pos / BLOCK_SIZE)][pos % BLOCK_SIZE..pos % BLOCK_SIZE + n];
    forall k | 0 <= k < n ensures part[k] == block[k] {
      SameBlock(pos, k);
      assert part[k] == ByteAt(disk, i, pos + k);
    }
  }

  lemma SameBlock(pos: int, k: int)
    requires 0 <= pos && 0 <= k < BLOCK_SIZE - pos % BLOCK_SIZE
    ensures (pos + k) / BLOCK_SIZE == pos / BLOCK_SIZE && (pos + k) % BLOCK_SIZE == pos % BLOCK_SIZE + k
  {
  }

  /** How many bytes `file_read` sets out to read; position plus count is a 32-bit sum. */
  function ReadSize(pos: Word, count: Word, size: Word): int {
    if Wrap(pos + count) > size then size - pos else count
  }

  /** These are the bytes asked for, as far as there are any, exactly when the sum does not wrap around
      or still lies behind the end of the file. */
  lemma ReadSizeIff(pos: Word, count: Word, size: Word)
    requires pos <= size
    ensures ReadSize(pos, count, size) == Least(count, size - pos)
            <==> pos + count < 0x1_0000_0000 || Wrap(pos + count) > size
  {
  }

  /** From position 1 of a file of 10 bytes a read of 2^32 - 1 bytes sets out for all of them. */
  lemma ReadSizeExample()
    ensures ReadSize(1, 0xffff_ffff, 10) == 0xffff_ffff && Least(0xffff_ffff, 10 - 1) == 9
  {
  }

  /** The loop of file_read: size bytes from the position on. */
  method FillBuffer(part: Partition, file: File, allBlocks: seq<Word>, buf: array<Byte>, size: int)
    requires FileOk(part.V(), file.fdInode.i) && |allBlocks| == 140
    requires 0 <= size <= buf.Length && file.fdPos + size <= file.fdInode.i.size
    requires file.fdInode.i.size > 0 ==>
             forall idx :: file.fdPos / BLOCK_SIZE <= idx <= (file.fdPos + size) / BLOCK_SIZE && idx < 140 ==>
               allBlocks[idx] == BlockAt(part.disk, file.fdInode.i, idx)
    requires forall x :: 0 <= x < file.fdInode.i.size ==> ByteThere(part.disk, file.fdInode.i, x)
    modifies file`fdPos, buf
    ensures file.fdPos == old(file.fdPos) + size
    ensures buf[..size] == Content(part.disk, file.fdInode.i)[old(file.fdPos)..old(file.fdPos) + size]
            && buf[size..] == old(buf[size..])
  {
    hide FileOk, Entries, ByteAt, ByteThere, BlockAt;
    var i := file.fdInode.i;
    SizeBelow(part.V(), i);
    ghost var pos := file.fdPos;
    ghost var content := Content(part.disk, i);
    var sizeLeft, bytesRead := size, 0;
    while bytesRead < size
      invariant 0 <= bytesRead <= size && sizeLeft == size - bytesRead && file.fdPos == pos + bytesRead
      invariant forall k :: 0 <= k < bytesRead ==> buf[k] == content[pos + k]
      invariant forall k :: bytesRead <= k < buf.Length ==> buf[k] == old(buf[k])
    {
      var chunkSize := ReadChunk(part, i, allBlocks, file.fdPos, sizeLeft, buf, bytesRead);
      ChunkAppended(content, pos, bytesRead, chunkSize, content[file.fdPos..file.fdPos + chunkSize]);
      file.fdPos := file.fdPos + chunkSize;
      bytesRead := bytesRead + chunkSize;
      sizeLeft := sizeLeft - chunkSize;
    }
  }

  /** `file_read`: the bytes from the position on, as many as asked for and as there are; -1 at the
      end of the file. The source asserts that the block behind the last byte is below 139. */
  method FileRead(part: Partition, file: File, buf: array<Byte>, count: Word) returns (r: int)
    requires FileOk(part.V(), file.fdInode.i) && file.fdPos <= file.fdInode.i.size
    requires file.fdPos + count < 0x1_0000_0000 || Wrap(file.fdPos + count) > file.fdInode.i.size
    requires Least(count, file.fdInode.i.size - file.fdPos) <= buf.Length
    requires (file.fdPos + Least(count, file.fdInode.i.size - file.fdPos)) / BLOCK_SIZE < 139
    requires forall x :: 0 <= x < file.fdInode.i.size ==> ByteThere(part.disk, file.fdInode.i, x)
    modifies file`fdPos, buf
    ensures var n := Least(count, file.fdInode.i.size - old(file.fdPos));
            && file.fdPos == old(file.fdPos) + n && r == (if n == 0 && count > 0 then -1 else n)
            && buf[..n] == Content(part.disk, file.fdInode.i)[old(file.fdPos)..old(file.fdPos) + n]
                && buf[n..] == old(buf[n..])
  {
    hide FileOk, Entries, ByteAt, ByteThere, BlockAt;
    var i := file.fdInode.i;
    SizeBelow(part.V(), i);
    ReadSizeIff(file.fdPos, count, i.size);
    var size: int := count;
    if Wrap(file.fdPos + count) > i.size {
      size := i.size - file.fdPos;
      if size == 0 {
        return -1;
      }
    }
    assert size == Least(count, i.size - file.fdPos);
    var allBlocks := ReadBlocks(part, i, file.fdPos / BLOCK_SIZE, (file.fdPos + size) / BLOCK_SIZE);
    FillBuffer(part, file, allBlocks, buf, size);
    r := size;
  }
}
