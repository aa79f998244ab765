/** ResourceManager: creates buffers, uploads bytes into them through a staging upload
    buffer and a copy queue, and loads textures (flipped vertically, since texture
    coordinate (0, 0) is the image's lower-left corner for pbrt scenes).

    A committed buffer is an `array<byte>` of its width, zero-filled as the driver hands
    it out. The copy queue's work is applied when the queue is waited on. */
module ResourceManagers {
  import opened SizeT
  import opened Alignment
  import opened Memory
  import opened TextureStaging
  import opened Fences

  /** The flipped copy: row i of the upload buffer, at i * RowPitch, receives bitmap row
      Height - i - 1, at (Height - i - 1) * width * 4. */
  method CopyRowsFlipped(upload: array<byte>, bitmap: seq<byte>, rowBytes: nat, fp: Footprint)
    requires Fits(upload.Length, |bitmap|, rowBytes, fp)
    modifies upload
    ensures upload[..] == Staged(old(upload[..]), bitmap, rowBytes, fp, fp.height, true)
  {
    ghost var before := upload[..];
    for i := 0 to fp.height
      invariant upload[..] == Staged(before, bitmap, rowBytes, fp, i, true)
    {
      var srcRow := fp.height - i - 1;
      RowOffsetIsProduct(i, fp.rowPitch);
      RowOffsetIsProduct(srcRow, rowBytes);
      RowInsideUpload(upload.Length, |bitmap|, rowBytes, fp, i);
      BitmapRowInside(srcRow, rowBytes, fp.height);
      Memcpy(upload, i * fp.rowPitch, bitmap, srcRow * rowBytes, rowBytes);
    }
  }

  /** CreateUploadBufferAndMap<T>: the buffer is sizeof(T) rounded up to the constant-buffer
      placement alignment. */
  function ConstantBufferSize(recordSize: u64): (size: u64)
  {
    ConstantsArePowersOfTwo();
    Align(recordSize, CONSTANT_BUFFER_DATA_PLACEMENT_ALIGNMENT)
  }

  /** A constant buffer holds its record, is a whole number of 256-byte placements, and
      wastes less than one placement, whenever sizeof(T) + 256 fits in size_t. */
  lemma ConstantBufferHoldsRecord(recordSize: u64)
    requires recordSize + CONSTANT_BUFFER_DATA_PLACEMENT_ALIGNMENT <= 0x1_0000_0000_0000_0000
    ensures recordSize <= ConstantBufferSize(recordSize)
              < recordSize + CONSTANT_BUFFER_DATA_PLACEMENT_ALIGNMENT
    ensures ConstantBufferSize(recordSize) % CONSTANT_BUFFER_DATA_PLACEMENT_ALIGNMENT == 0
  {
    ConstantsArePowersOfTwo();
  }

  class ResourceManager {
    /** m_fence, created on the copy queue. */
    const fence: Fence
    /** m_fenceValue: the next value to signal. */
    var fenceValue: nat

    /** The fence was created at 0, the values signalled so far are 1, 2, ...,
        fenceValue - 1 in order, and the GPU has not got past the last of them. */
    ghost predicate Valid()
      reads this, fence
    {
      fence.Valid() && fence.initialValue == 0 &&
      1 <= fenceValue && fence.signals == Counting(1, fenceValue) &&
      fence.Latest() + 1 == fenceValue
    }

    /** ResourceManager(device): CreateFence(m_fenceValue = 0), then ++m_fenceValue. */
    constructor ()
      ensures Valid() && fresh(fence)
      ensures fenceValue == 1 && fence.completed == 0 && fence.signals == []
    {
      var initial := 0;
      fence := new Fence(initial);
      fenceValue := initial + 1;
    }

    /** CreateBuffer(size, flags, initialState): a default-heap buffer of `size` bytes. */
    method CreateBuffer(size: u64) returns (resource: array<byte>)
      ensures fresh(resource) && resource.Length == size
    {
      resource := new byte[size];
    }

    /** CreateUploadBuffer(size): an upload-heap buffer of `size` bytes. */
    method CreateUploadBuffer(size: u64) returns (resource: array<byte>)
      ensures fresh(resource) && resource.Length == size
    {
      resource := new byte[size];
    }

    /** CreateUploadBufferAndMap<T>(ptr): an upload buffer sized for one constant-buffer
        record of `recordSize` (= sizeof(T)) bytes. */
    method CreateUploadBufferAndMap(recordSize: u64) returns (resource: array<byte>)
      ensures fresh(resource) && resource.Length == ConstantBufferSize(recordSize)
    {
      resource := CreateUploadBuffer(ConstantBufferSize(recordSize));
    }

    /** WaitForGpu(): signals the pre-call m_fenceValue, leaves m_fenceValue one larger,
        and returns once the GPU has reached the signalled value. */
    method WaitForGpu()
      requires Valid()
      modifies this, fence
      ensures Valid()
      ensures fenceValue == old(fenceValue) + 1
      ensures fence.signals == old(fence.signals) + [old(fenceValue)]
      ensures fence.completed == old(fenceValue)
    {
      var waitValue := fenceValue;
      CountingNext(1, fenceValue);
      fenceValue := fenceValue + 1;

      fence.Signal(waitValue);
      fence.WaitFor(waitValue, waitValue);
    }

    /** UploadToBuffer(dstResource, dstOffset, srcResource, srcSize): CopyBufferRegion of
        the first srcSize bytes of srcResource to dstOffset, then WaitForGpu. */
    method UploadBufferRegion(dst: array<byte>, dstOffset: u64, src: array<byte>, srcSize: u64)
      requires Valid()
      requires dstOffset + srcSize <= dst.Length && srcSize <= src.Length
      modifies this, fence, dst
      ensures Valid()
      ensures dst[..] == Overwritten(old(dst[..]), dstOffset, old(src[..]), 0, srcSize)
      ensures fenceValue == old(fenceValue) + 1
      ensures fence.signals == old(fence.signals) + [old(fenceValue)]
      ensures fence.completed == old(fenceValue)
    {
      Memcpy(dst, dstOffset, src[..], 0, srcSize);
      WaitForGpu();
    }

    /** UploadToBuffer(dstResource, dstOffset, srcData): stages exactly |srcData| bytes in a
        new upload buffer and copies that many bytes to dstOffset of the destination,
        returning once the GPU has finished the copy. */
    method UploadToBuffer(dst: array<byte>, dstOffset: u64, srcData: seq<byte>)
      requires Valid()
      requires |srcData| < 0x1_0000_0000_0000_0000
      requires dstOffset + |srcData| <= dst.Length
      modifies this, fence, dst
      ensures Valid()
      ensures dst[..] == Overwritten(old(dst[..]), dstOffset, srcData, 0, |srcData|)
      ensures fenceValue == old(fenceValue) + 1
      ensures fence.signals == old(fence.signals) + [old(fenceValue)]
      ensures fence.completed == old(fenceValue)
    {
      var uploadBuffer := CreateUploadBuffer(|srcData|);
      Memcpy(uploadBuffer, 0, srcData, 0, |srcData|);
      assert uploadBuffer[..] == srcData;
      UploadBufferRegion(dst, dstOffset, uploadBuffer, |srcData|);
    }

    /** CreateBufferAndUpload<T>(data): a buffer of exactly the data's byte size, holding
        those bytes once the call returns, by which time the GPU has finished the copy. */
    method CreateBufferAndUpload(data: seq<byte>) returns (resource: array<byte>)
      requires Valid()
      requires |data| < 0x1_0000_0000_0000_0000
      modifies this, fence
      ensures Valid() && fresh(resource)
      ensures resource.Length == |data| && resource[..] == data
      ensures fenceValue == old(fenceValue) + 1
      ensures fence.signals == old(fence.signals) + [old(fenceValue)]
      ensures fence.completed == old(fenceValue)
    {
      resource := CreateBuffer(|data|);
      ghost var created := resource[..];
      UploadToBuffer(resource, 0, data);
      OverwrittenWhole(created, data);
    }

    /** LoadImage(path): the convertibility assert (debug builds stop there; it is the
        failure result), then the flipped staging copy, then Signal m_fenceValue, poll
        until the GPU has reached it, and ++m_fenceValue. Returns the staged bytes that
        CopyTextureRegion fills the texture from. */
    method LoadImage(canConvert: bool, width: u32, bitmap: seq<byte>, fp: Footprint,
                     upload: array<byte>, readings: seq<nat>)
      returns (r: Result<seq<byte>>)
      requires Valid()
      requires Fits(upload.Length, |bitmap|, RowBytes(width), fp)
      requires forall k :: 0 <= k < |readings| ==> fence.completed <= readings[k] <= fenceValue
      requires exists k :: 0 <= k < |readings| && fenceValue <= readings[k]
      modifies this, fence, upload
      ensures Valid()
      ensures !canConvert ==>
                r == Failure("canConvert is false") &&
                fenceValue == old(fenceValue) && fence.signals == old(fence.signals) &&
                fence.completed == old(fence.completed) && upload[..] == old(upload[..])
      ensures canConvert ==>
                r == Success(upload[..]) &&
                upload[..] == Staged(old(upload[..]), bitmap, RowBytes(width), fp, fp.height,
                                     true) &&
                fence.signals == old(fence.signals) + [old(fenceValue)] &&
                fenceValue == old(fenceValue) + 1 &&
                old(fenceValue) <= fence.completed
    {
      if !canConvert {
        return Failure("canConvert is false");
      }

      CopyRowsFlipped(upload, bitmap, RowBytes(width), fp);

      fence.Signal(fenceValue);
      var polls := PollUntilReached(fenceValue, readings);
      var completed := fence.Observe(readings[polls]);

      CountingNext(1, fenceValue);
      fenceValue := fenceValue + 1;

      return Success(upload[..]);
    }
  }
}
