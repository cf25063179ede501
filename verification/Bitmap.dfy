/** The resource bitmap of v1-src/lib/bitmap.c: bytes in memory, searched first fit.
    The specification works on a plain sequence of booleans, bit k of the map being
    bit k % 8 of byte k / 8. */
module Bitmaps {

  /** Bit `i` of a byte, tested with the mask `1 << i`. */
  predicate BitSet(b: bv8, i: nat)
    requires i < 8
  {
    b & (1 << i) != 0
  }

  /** The byte with bit `i` set or cleared through that mask. */
  function WithBit(b: bv8, i: nat, value: bool): bv8
    requires i < 8
  {
    if value then b | (1 << i) else b & !(1 << i)
  }

  /** Bit `k` of a run of bytes: bit `k % 8` of byte `k / 8`. */
  predicate BitOf(bytes: seq<bv8>, k: nat)
    requires k < 8 * |bytes|
  {
    BitSet(bytes[k / 8], k % 8)
  }

  /** The bits of a run of bytes, in bit-index order. */
  function Unpack(bytes: seq<bv8>): (bits: seq<bool>)
    ensures |bits| == 8 * |bytes|
    ensures forall k :: 0 <= k < |bits| ==> bits[k] == BitOf(bytes, k)
  {
    seq(8 * |bytes|, k requires 0 <= k < 8 * |bytes| => BitOf(bytes, k))
  }

  /** `cnt` clear bits start at `i`. */
  predicate Clear(bits: seq<bool>, i: int, cnt: nat) {
    0 <= i && i + cnt <= |bits| && forall k :: i <= k < i + cnt ==> !bits[k]
  }

  /** `r` is the least index at which `cnt` clear bits start, or -1 when there is none. */
  ghost predicate IsFirstFit(bits: seq<bool>, cnt: nat, r: int) {
    && (r == -1 || Clear(bits, r, cnt))
    && (forall j :: 0 <= j < (if r == -1 then |bits| else r) ==> !Clear(bits, j, cnt))
  }

  function FirstFitFrom(bits: seq<bool>, cnt: nat, i: nat): (r: int)
    requires i <= |bits|
    ensures r == -1 || (i <= r < |bits| && Clear(bits, r, cnt))
    ensures forall j :: i <= j < (if r == -1 then |bits| else r) ==> !Clear(bits, j, cnt)
    decreases |bits| - i
  {
    if i == |bits| then -1
    else if Clear(bits, i, cnt) then i
    else FirstFitFrom(bits, cnt, i + 1)
  }

  function FirstFit(bits: seq<bool>, cnt: nat): (r: int)
    ensures IsFirstFit(bits, cnt, r)
    ensures -1 <= r
    ensures r != -1 && cnt > 0 ==> r + cnt <= |bits|
  {
    FirstFitFrom(bits, cnt, 0)
  }

  lemma FirstFitUnique(bits: seq<bool>, cnt: nat, r: int)
    requires cnt > 0 && -1 <= r
    requires IsFirstFit(bits, cnt, r)
    ensures r == FirstFit(bits, cnt)
  {
    var f := FirstFit(bits, cnt);
    if r != -1 && f != -1 {
      assert !(r < f) && !(f < r);
    }
  }

  /** What `bitmap_scan` answers for a map followed in memory by a byte whose lowest bit is
      `guard`: for one bit the map alone is searched, for longer runs the guard bit too. */
  function ScanResult(bits: seq<bool>, guard: bool, cnt: nat): int {
    if cnt == 1 then FirstFit(bits, 1) else FirstFit(bits + [guard], cnt)
  }

  /** The bit past the end does not matter: one bit is asked for, that bit is set, the map does not
      end in `cnt - 1` clear bits, or a run of `cnt` clear bits lies inside. */
  ghost predicate ScanExact(bits: seq<bool>, guard: bool, cnt: nat)
    requires cnt > 0
  {
    cnt == 1 || guard || !Clear(bits, |bits| - (cnt - 1), cnt - 1) || exists i :: Clear(bits, i, cnt)
  }

  /** The scan answers like first fit in the map itself exactly in these cases; in all others it
      answers the run that ends in the bit past the end. */
  lemma ScanIsFirstFitIff(bits: seq<bool>, guard: bool, cnt: nat)
    requires cnt > 0
    ensures ScanResult(bits, guard, cnt) == FirstFit(bits, cnt) <==> ScanExact(bits, guard, cnt)
    ensures !ScanExact(bits, guard, cnt) ==> ScanResult(bits, guard, cnt) == |bits| - (cnt - 1) >= 0
  {
    if cnt == 1 {
      return;
    }
    var more := bits + [guard];
    assert forall i :: 0 <= i && i + cnt <= |bits| ==> (Clear(bits, i, cnt) <==> Clear(more, i, cnt)) by {
      forall i | 0 <= i && i + cnt <= |bits| ensures Clear(bits, i, cnt) <==> Clear(more, i, cnt) {
        assert forall k :: i <= k < i + cnt ==> more[k] == bits[k];
      }
    }
    var last := |bits| - (cnt - 1);
    assert Clear(more, last, cnt) <==> (!guard && Clear(bits, last, cnt - 1)) by {
      if 0 <= last {
        assert more[|bits|] == guard;
        assert forall k :: last <= k < |bits| ==> more[k] == bits[k];
      }
    }
    var f := FirstFit(bits, cnt);
    if f != -1 {
      FirstFitUnique(more, cnt, f);
    } else if Clear(more, last, cnt) {
      assert !exists i :: Clear(bits, i, cnt);
      forall j | 0 <= j < last ensures !Clear(more, j, cnt) { assert j + cnt <= |bits|; }
      FirstFitUnique(more, cnt, last);
    } else {
      FirstFitUnique(more, cnt, -1);
    }
  }

  /** A map whose last bit is set is scanned exactly, whatever follows it. */
  lemma LastSetIsExact(bits: seq<bool>, guard: bool, cnt: nat)
    requires cnt > 0 && bits != [] && bits[|bits| - 1]
    ensures ScanExact(bits, guard, cnt)
  {
    if cnt > 1 {
      assert !Clear(bits, |bits| - (cnt - 1), cnt - 1) by {
        assert 0 <= |bits| - (cnt - 1) ==> |bits| - (cnt - 1) <= |bits| - 1;
      }
    }
  }

  /** A concrete map on which the overrun shows: seven set bits, one clear one, and a clear bit
      after the end make a request for two bits succeed at an index past which only one is left. */
  lemma ScanOverrunExample()
    ensures var bits := [true, true, true, true, true, true, true, false];
            FirstFit(bits, 2) == -1 && ScanResult(bits, false, 2) == 7
  {
    var bits := [true, true, true, true, true, true, true, false];
    assert bits[6] && bits[5] && bits[4] && bits[3] && bits[2] && bits[1] && bits[0];
    FirstFitUnique(bits, 2, -1);
    var more := bits + [false];
    assert forall j :: 0 <= j < 7 ==> more[j];
    assert Clear(more, 7, 2);
    forall j | 0 <= j < 7 ensures !Clear(more, j, 2) { assert more[j]; }
    FirstFitUnique(more, 2, 7);
  }

  /** Writing a bit through its mask changes that bit and no other. */
  lemma MaskSets(b: bv8, i: nat, value: bool, j: nat)
    requires i < 8 && j < 8
    ensures BitSet(WithBit(b, i, value), j) == if i == j then value else BitSet(b, j)
  {
    if i == 0 {} else if i == 1 {} else if i == 2 {} else if i == 3 {}
    else if i == 4 {} else if i == 5 {} else if i == 6 {} else {}
  }

  lemma FullByte(b: bv8)
    ensures b == 0xff <==> forall i :: 0 <= i < 8 ==> BitSet(b, i)
  {
    if forall i :: 0 <= i < 8 ==> BitSet(b, i) {
      assert BitSet(b, 0) && BitSet(b, 1) && BitSet(b, 2) && BitSet(b, 3);
      assert BitSet(b, 4) && BitSet(b, 5) && BitSet(b, 6) && BitSet(b, 7);
    }
  }

  /** A map every byte of which is 0xff has every bit set, and conversely. */
  lemma FullMap(bytes: seq<bv8>)
    ensures (forall i :: 0 <= i < |bytes| ==> bytes[i] == 0xff)
            <==> (forall k :: 0 <= k < 8 * |bytes| ==> BitOf(bytes, k))
  {
    forall k | 0 <= k < 8 * |bytes| && bytes[k / 8] == 0xff ensures BitOf(bytes, k) {
      FullByte(bytes[k / 8]);
    }
    forall i | 0 <= i < |bytes| && bytes[i] != 0xff ensures exists k :: 0 <= k < 8 * |bytes| && !BitOf(bytes, k) {
      FullByte(bytes[i]);
      var j :| 0 <= j < 8 && !BitSet(bytes[i], j);
      assert (8 * i + j) / 8 == i && (8 * i + j) % 8 == j;
      assert !BitOf(bytes, 8 * i + j);
    }
  }

  /** Bytes 0 .. `byteIndex` - 1 are full and `bitIndex` bits of the next byte are set: the next
      bit, if clear, is the first clear one. */
  lemma FirstClear(bytes: seq<bv8>, byteIndex: nat, bitIndex: nat)
    requires byteIndex < |bytes| && bitIndex < 8
    requires forall i :: 0 <= i < byteIndex ==> bytes[i] == 0xff
    requires forall i :: 0 <= i < bitIndex ==> BitSet(bytes[byteIndex], i)
    requires !BitSet(bytes[byteIndex], bitIndex)
    ensures !Unpack(bytes)[byteIndex * 8 + bitIndex]
    ensures forall k :: 0 <= k < byteIndex * 8 + bitIndex ==> Unpack(bytes)[k]
  {
    forall k | 0 <= k < byteIndex * 8 + bitIndex ensures BitOf(bytes, k) {
      FullByte(bytes[k / 8]);
    }
  }

  /** The scan's progress: `count` < `cnt` clear bits end just before `next`, they cannot be
      extended to the left, and no run of `cnt` clear bits ends before `next`. */
  ghost predicate RunSoFar(bits: seq<bool>, next: nat, count: nat, cnt: nat) {
    && count < cnt && count <= next
    && Clear(bits, next - count, count)
    && (count < next ==> bits[next - count - 1])
    && (forall j :: 0 <= j && j + cnt <= next ==> !Clear(bits, j, cnt))
  }

  /** One more bit: either the run of `cnt` is complete and is the first, or the progress holds on. */
  lemma RunStep(bits: seq<bool>, next: nat, count: nat, cnt: nat)
    requires next < |bits| && RunSoFar(bits, next, count, cnt)
    ensures var count' := if bits[next] then 0 else count + 1;
            if count' == cnt then next - cnt + 1 == FirstFit(bits, cnt) else RunSoFar(bits, next + 1, count', cnt)
  {
    var count' := if bits[next] then 0 else count + 1;
    if count' == cnt {
      FirstFitUnique(bits, cnt, next - cnt + 1);
    } else {
      forall j | 0 <= j && j + cnt <= next + 1 ensures !Clear(bits, j, cnt) {
        if j + cnt == next + 1 && !bits[next] {
          assert j <= next - count - 1;
        }
      }
    }
  }

  lemma RunEnds(bits: seq<bool>, count: nat, cnt: nat)
    requires RunSoFar(bits, |bits|, count, cnt)
    ensures FirstFit(bits, cnt) == -1
  {
    FirstFitUnique(bits, cnt, -1);
  }

  lemma FirstClearIsFit(bits: seq<bool>, first: nat)
    requires first < |bits|
    requires !bits[first] && forall k :: 0 <= k < first ==> bits[k]
    ensures first == FirstFit(bits, 1)
  {
    forall j | 0 <= j < first ensures !Clear(bits, j, 1) {
      assert bits[j];
    }
    FirstFitUnique(bits, 1, first);
  }

  lemma NoEarlierRun(bits: seq<bool>, first: nat, cnt: nat)
    requires first < |bits| && cnt > 1
    requires !bits[first] && forall k :: 0 <= k < first ==> bits[k]
    ensures RunSoFar(bits, first + 1, 1, cnt)
  {
    forall j | 0 <= j && j + cnt <= first + 1 ensures !Clear(bits, j, cnt) {
      assert bits[j];
    }
  }

  lemma SetByteSetsBit(bytes: seq<bv8>, k: nat, value: bool)
    requires k < 8 * |bytes|
    ensures Unpack(bytes[k / 8 := WithBit(bytes[k / 8], k % 8, value)]) == Unpack(bytes)[k := value]
  {
    var after := bytes[k / 8 := WithBit(bytes[k / 8], k % 8, value)];
    forall j | 0 <= j < 8 * |bytes| ensures BitOf(after, j) == Unpack(bytes)[k := value][j] {
      MaskSets(bytes[k / 8], k % 8, value, j % 8);
    }
  }

  class Bitmap {
    // `btmp_bytes_len` and the memory that `bits` points into; the byte after the map exists,
    // because the code reads it.
    var bytesLen: nat
    var bits: array<bv8>

    ghost predicate Valid()
      reads this
    {
      bytesLen < bits.Length
    }

    ghost function Bits(): seq<bool>
      requires Valid()
      reads this, bits
    {
      Unpack(bits[..bytesLen])
    }

    /** The bit just past the end of the map. */
    ghost predicate Guard()
      requires Valid()
      reads this, bits
    {
      BitSet(bits[bytesLen], 0)
    }

    method Init()
      requires Valid()
      modifies bits
      ensures Valid() && Bits() == seq(8 * bytesLen, k => false)
      ensures bits[bytesLen..] == old(bits[bytesLen..])
    {
      var i := 0;
      while i < bytesLen
        invariant 0 <= i <= bytesLen
        invariant forall j :: 0 <= j < i ==> bits[j] == 0
        invariant bits[bytesLen..] == old(bits[bytesLen..])
      {
        bits[i] := 0;
        i := i + 1;
      }
    }

    method ScanTest(bitIdx: nat) returns (masked: bv8)
      requires Valid() && bitIdx <= 8 * bytesLen
      ensures masked != 0 <==> (Bits() + [Guard()])[bitIdx]
    {
      var byteIdx, byteOdd := bitIdx / 8, bitIdx % 8;
      masked := bits[byteIdx] & (1 << byteOdd);
      assert bitIdx < 8 * bytesLen ==> bits[byteIdx] == bits[..bytesLen][byteIdx];
      assert bitIdx == 8 * bytesLen ==> byteOdd == 0 && byteIdx == bytesLen;
    }

    /** The first half of `bitmap_scan`: skip full bytes, then set bits of the next byte. */
    method FirstClearBit() returns (first: nat)
      requires Valid()
      requires exists k :: 0 <= k < |Bits()| && !Bits()[k]
      ensures first < |Bits()| && !Bits()[first]
      ensures forall k :: 0 <= k < first ==> Bits()[k]
    {
      ghost var bytes := bits[..bytesLen];
      var byteIndex := 0;
      while bits[byteIndex] == 0xff && byteIndex < bytesLen
        invariant 0 <= byteIndex <= bytesLen
        invariant forall i :: 0 <= i < byteIndex ==> bytes[i] == 0xff
      {
        byteIndex := byteIndex + 1;
      }
      FullMap(bytes);
      assert byteIndex < bytesLen;
      FullByte(bytes[byteIndex]);
      var bitIndex := 0;
      while BitSet(bits[byteIndex], bitIndex)
        invariant 0 <= bitIndex < 8
        invariant forall i :: 0 <= i < bitIndex ==> BitSet(bytes[byteIndex], i)
        decreases 8 - bitIndex
      {
        assert BitSet(bytes[byteIndex], bitIndex);
        bitIndex := bitIndex + 1;
      }
      FirstClear(bytes, byteIndex, bitIndex);
      return byteIndex * 8 + bitIndex;
    }

    method Scan(cnt: nat) returns (bitStart: int)
      requires Valid()
      requires cnt > 0
      requires exists k :: 0 <= k < |Bits()| && !Bits()[k]
      ensures bitStart == ScanResult(Bits(), Guard(), cnt)
    {
      hide RunSoFar;
      ghost var more := Bits() + [Guard()];
      var first := FirstClearBit();
      if cnt == 1 {
        FirstClearIsFit(Bits(), first);
        return first;
      }
      NoEarlierRun(more, first, cnt);

      var bitLeft := bytesLen * 8 - first;
      var bitNext := first + 1;
      var count := 1;
      while bitLeft > 0
        invariant 0 <= bitLeft && bitNext == bytesLen * 8 - bitLeft + 1
        invariant RunSoFar(more, bitNext, count, cnt)
      {
        bitLeft := bitLeft - 1;
        var masked := ScanTest(bitNext);
        RunStep(more, bitNext, count, cnt);
        count := if masked == 0 then count + 1 else 0;
        if count == cnt {
          return bitNext - cnt + 1;
        }
        bitNext := bitNext + 1;
      }
      bitStart := -1;
      RunEnds(more, count, cnt);
    }

    method Set(bitIdx: nat, value: int)
      requires Valid()
      requires bitIdx < 8 * bytesLen
      requires value == 0 || value == 1
      modifies bits
      ensures Valid() && Bits() == old(Bits())[bitIdx := value == 1]
      ensures bits[bytesLen..] == old(bits[bytesLen..])
    {
      var byteIndex, bitIndex := bitIdx / 8, bitIdx % 8;
      ghost var before := bits[..bytesLen];
      if value != 0 {
        bits[byteIndex] := WithBit(bits[byteIndex], bitIndex, true);
      } else {
        bits[byteIndex] := WithBit(bits[byteIndex], bitIndex, false);
      }
      assert bits[..bytesLen] == before[byteIndex := WithBit(before[byteIndex], bitIndex, value == 1)];
      SetByteSetsBit(before, bitIdx, value == 1);
    }
  }
}
