/** ImageLoader: decodes an image with WIC, converts it to 32-bit RGBA, stages it row by
    row into an upload buffer laid out as the texture's copyable footprint says, copies it
    into a texture on a copy queue and polls the queue's fence until the copy is done.

    Decoding, conversion and GetCopyableFootprints are foreign calls: their results (the
    source pixel format, whether conversion is possible, the converted pixels, the width
    and the footprint) are parameters, and so are the successive completed values the
    polling loop reads. */
module ImageLoaders {
  import opened SizeT
  import opened Memory
  import opened TextureStaging
  import opened Fences

  /** The WIC pixel format the decoder reports for the image's first frame. */
  datatype PixelFormat = Bgr24 | Bgra32 | Rgba32 | OtherFormat(guid: nat)

  /** The formats ImageLoader::LoadImage asserts the source to be in. */
  predicate AcceptedSourceFormat(format: PixelFormat)
  {
    format == Bgr24 || format == Bgra32
  }

  /** The unflipped copy: `Height` memcpys of rowBytes bytes, the upload pointer advancing
      by RowPitch and the bitmap pointer by rowBytes after each row. */
  method CopyRows(upload: array<byte>, bitmap: seq<byte>, rowBytes: nat, fp: Footprint)
    requires Fits(upload.Length, |bitmap|, rowBytes, fp)
    modifies upload
    ensures upload[..] == Staged(old(upload[..]), bitmap, rowBytes, fp, fp.height, false)
  {
    ghost var before := upload[..];
    var uploadPtr := 0;
    var bitmapPtr := 0;
    var i := 0;
    while i < fp.height
      invariant i <= fp.height
      invariant uploadPtr == RowOffset(i, fp.rowPitch) && bitmapPtr == RowOffset(i, rowBytes)
      invariant upload[..] == Staged(before, bitmap, rowBytes, fp, i, false)
    {
      RowInsideUpload(upload.Length, |bitmap|, rowBytes, fp, i);
      BitmapRowInside(i, rowBytes, fp.height);
      Memcpy(upload, uploadPtr, bitmap, bitmapPtr, rowBytes);

      uploadPtr := uploadPtr + fp.rowPitch;
      bitmapPtr := bitmapPtr + rowBytes;
      i := i + 1;
    }
  }

  class ImageLoader {
    /** m_fence, created on the copy queue. */
    const fence: Fence
    /** m_fenceValue: the next value to signal. */
    var fenceValue: nat

    /** The fence was created at 0, the values signalled so far are 1, 2, ...,
        fenceValue - 1 in order, and the GPU has not got past the last of them. */
    ghost predicate Valid()
      reads this, fence
    {
      fence.Valid() && fence.initialValue == 0 &&
      1 <= fenceValue && fence.signals == Counting(1, fenceValue) &&
      fence.Latest() + 1 == fenceValue
    }

    /** ImageLoader(device): CreateFence(m_fenceValue = 0), then ++m_fenceValue. */
    constructor ()
      ensures Valid() && fresh(fence)
      ensures fenceValue == 1 && fence.completed == 0 && fence.signals == []
    {
      var initial := 0;
      fence := new Fence(initial);
      fenceValue := initial + 1;
    }

    /** LoadImage(path): the source-format and convertibility asserts (debug builds stop
        there; they are the two failure results), then the staging copy, then Signal
        m_fenceValue, poll until the GPU has reached it, and ++m_fenceValue. Returns the
        staged bytes that CopyTextureRegion fills the texture from. */
    method LoadImage(format: PixelFormat, canConvert: bool, width: u32, bitmap: seq<byte>,
                     fp: Footprint, upload: array<byte>, readings: seq<nat>)
      returns (r: Result<seq<byte>>)
      requires Valid()
      requires Fits(upload.Length, |bitmap|, RowBytes(width), fp)
      requires forall k :: 0 <= k < |readings| ==> fence.completed <= readings[k] <= fenceValue
      requires exists k :: 0 <= k < |readings| && fenceValue <= readings[k]
      modifies this, fence, upload
      ensures Valid()
      ensures !AcceptedSourceFormat(format) ==>
                r == Failure("srcFormat is neither 24bppBGR nor 32bppBGRA")
      ensures AcceptedSourceFormat(format) && !canConvert ==> r == Failure("canConvert is false")
      ensures r.Failure? ==>
                fenceValue == old(fenceValue) && fence.signals == old(fence.signals) &&
                fence.completed == old(fence.completed) && upload[..] == old(upload[..])
      ensures AcceptedSourceFormat(format) && canConvert ==>
                r == Success(upload[..]) &&
                upload[..] == Staged(old(upload[..]), bitmap, RowBytes(width), fp, fp.height,
                                     false) &&
                fence.signals == old(fence.signals) + [old(fenceValue)] &&
                fenceValue == old(fenceValue) + 1 &&
                old(fenceValue) <= fence.completed
    {
      if !AcceptedSourceFormat(format) {
        return Failure("srcFormat is neither 24bppBGR nor 32bppBGRA");
      }
      if !canConvert {
        return Failure("canConvert is false");
      }

      CopyRows(upload, bitmap, RowBytes(width), fp);

      fence.Signal(fenceValue);
      var polls := PollUntilReached(fenceValue, readings);
      var completed := fence.Observe(readings[polls]);

      CountingNext(1, fenceValue);
      fenceValue := fenceValue + 1;

      return Success(upload[..]);
    }
  }
}
