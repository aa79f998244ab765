/** memcpy into CPU-visible (mapped) memory, and the GPU's CopyBufferRegion, which
    moves bytes the same way. A buffer's bytes are an `array<byte>`. */
module Memory {
  import opened SizeT

  /** The bytes of `dst` after `count` bytes of `src`, starting at `srcOffset`, have been
      written at `dstOffset`; everything else is as it was. */
  function Overwritten(dst: seq<byte>, dstOffset: nat, src: seq<byte>, srcOffset: nat, count: nat)
    : (r: seq<byte>)
    requires dstOffset + count <= |dst| && srcOffset + count <= |src|
    ensures |r| == |dst|
  {
    seq(|dst|, k requires 0 <= k < |dst| =>
      if dstOffset <= k < dstOffset + count then src[srcOffset + (k - dstOffset)] else dst[k])
  }

  /** The copy lands as one block: the bytes before and after the destination range
      keep their values and the range holds exactly the source block. */
  lemma OverwrittenIsSplice(dst: seq<byte>, dstOffset: nat, src: seq<byte>, srcOffset: nat,
                            count: nat)
    requires dstOffset + count <= |dst| && srcOffset + count <= |src|
    ensures Overwritten(dst, dstOffset, src, srcOffset, count)
            == dst[..dstOffset] + src[srcOffset..srcOffset + count] + dst[dstOffset + count..]
  {
  }

  /** One byte of the result: from the source block inside the destination range,
      unchanged outside it. */
  lemma OverwrittenAt(dst: seq<byte>, dstOffset: nat, src: seq<byte>, srcOffset: nat,
                      count: nat, k: nat)
    requires dstOffset + count <= |dst| && srcOffset + count <= |src| && k < |dst|
    ensures dstOffset <= k < dstOffset + count ==>
              Overwritten(dst, dstOffset, src, srcOffset, count)[k] == src[srcOffset + (k - dstOffset)]
    ensures !(dstOffset <= k < dstOffset + count) ==>
              Overwritten(dst, dstOffset, src, srcOffset, count)[k] == dst[k]
  {
  }

  /** Copying a whole span over a buffer of the same size from offset 0 leaves the buffer
      equal to the span, whatever it held before. */
  lemma OverwrittenWhole(before: seq<byte>, data: seq<byte>)
    requires |before| == |data|
    ensures Overwritten(before, 0, data, 0, |data|) == data
  {
    var after := Overwritten(before, 0, data, 0, |data|);
    assert forall k :: 0 <= k < |data| ==> after[k] == data[k];
  }

  /** memcpy(dst + dstOffset, src + srcOffset, count) for non-overlapping buffers. */
  method Memcpy(dst: array<byte>, dstOffset: nat, src: seq<byte>, srcOffset: nat, count: nat)
    requires dstOffset + count <= dst.Length && srcOffset + count <= |src|
    modifies dst
    ensures dst[..] == Overwritten(old(dst[..]), dstOffset, src, srcOffset, count)
  {
    forall k | dstOffset <= k < dstOffset + count {
      dst[k] := src[srcOffset + (k - dstOffset)];
    }
  }
}
