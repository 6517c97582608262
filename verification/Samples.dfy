/**
 The sample array as the two paths of the detector see it: 32-bit words whose bytes
 lie in memory in little-endian order.
 */
module Samples {
  import opened Words

  type Lane = l: int | 0 <= l < 4

  function LaneOf(value: Word32, lane: Lane): Byte {
    match lane
    case 0 => value % 0x100
    case 1 => value / 0x100 % 0x100
    case 2 => value / 0x1_0000 % 0x100
    case _ => value / 0x100_0000
  }

  function ByteAt(samples: seq<Word32>, k: nat): Byte
    requires k < 4 * |samples|
  {
    LaneOf(samples[k / 4], k % 4)
  }

  function BytesOf(samples: seq<Word32>): (bytes: seq<Byte>)
    ensures |bytes| == 4 * |samples|
    ensures forall k :: 0 <= k < |bytes| ==> bytes[k] == ByteAt(samples, k)
  {
    seq(4 * |samples|, k requires 0 <= k < 4 * |samples| => ByteAt(samples, k))
  }

  lemma BytesOfSum(a: seq<Word32>, b: seq<Word32>)
    ensures BytesOf(a + b) == BytesOf(a) + BytesOf(b)
  {
    hide LaneOf;
    forall k | 0 <= k < 4 * (|a| + |b|)
      ensures BytesOf(a + b)[k] == (BytesOf(a) + BytesOf(b))[k]
    {
      if k >= 4 * |a| {
        var j := k - 4 * |a|;
        assert k / 4 == |a| + j / 4 && k % 4 == j % 4;
      }
    }
  }
}
