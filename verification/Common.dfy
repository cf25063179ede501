/** Small types and functions that several modules share. */
module Common {
  datatype Option<+T> = None | Some(value: T)

  type Byte = x: int | 0 <= x < 0x100

  type Word = x: int | 0 <= x < 0x1_0000_0000

  /** 32-bit unsigned arithmetic. */
  function Wrap(x: int): Word { x % 0x1_0000_0000 }

  /** The bits first to first + cnt - 1 written. */
  function SetRange(bits: seq<bool>, first: int, cnt: int, value: bool): (r: seq<bool>)
    ensures |r| == |bits|
    ensures forall k :: 0 <= k < |bits| ==> r[k] == if first <= k < first + cnt then value else bits[k]
  {
    seq(|bits|, k requires 0 <= k < |bits| => if first <= k < first + cnt then value else bits[k])
  }
}
