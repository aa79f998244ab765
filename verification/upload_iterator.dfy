/** UploadIterator<T>: a cursor over a mapped upload buffer that writes fixed-stride
    records. Map/Unmap and the buffer's GPU virtual address come from Direct3D 12; they
    are given to the constructor as the addresses they return. */
module UploadIterators {
  import opened SizeT

  class UploadIterator {
    /** m_buffer->GetGPUVirtualAddress(): fixed for the lifetime of the buffer. */
    const bufferGpuAddress: u64
    /** The CPU address Map() wrote into m_ptr. */
    const mappedAddress: u64
    /** m_stride. */
    const stride: u64

    /** m_ptr: CPU address of the current record. */
    var ptr: u64
    /** m_currentOffset: byte offset of the current record from the buffer start. */
    var currentOffset: u64

    /** How many times operator++ has run. */
    ghost var Advances: nat

    /** After k advances, both the write pointer and the offset moved by k strides
        (modulo 2^64, as size_t and pointer arithmetic do). */
    ghost predicate Valid()
      reads this
    {
      currentOffset == Wrap64(Advances * stride) &&
      ptr == Wrap64(mappedAddress + Advances * stride)
    }

    /** UploadIterator(buffer, stride): maps the buffer; the offset starts at 0. */
    constructor (bufferGpuAddress: u64, mappedAddress: u64, stride: u64)
      ensures Valid() && Advances == 0
      ensures this.bufferGpuAddress == bufferGpuAddress && this.mappedAddress == mappedAddress
      ensures this.stride == stride
      ensures ptr == mappedAddress && currentOffset == 0
    {
      this.bufferGpuAddress := bufferGpuAddress;
      this.mappedAddress := mappedAddress;
      this.stride := stride;
      ptr := mappedAddress;
      currentOffset := 0;
      Advances := 0;
    }

    /** UploadIterator(buffer) with the default argument `stride = sizeof(T)`. */
    constructor WithRecordStride(bufferGpuAddress: u64, mappedAddress: u64, recordSize: u64)
      ensures Valid() && Advances == 0
      ensures this.bufferGpuAddress == bufferGpuAddress && this.mappedAddress == mappedAddress
      ensures stride == recordSize
      ensures ptr == mappedAddress && currentOffset == 0
    {
      this.bufferGpuAddress := bufferGpuAddress;
      this.mappedAddress := mappedAddress;
      stride := recordSize;
      ptr := mappedAddress;
      currentOffset := 0;
      Advances := 0;
    }

    /** operator->: the CPU address of the record being written, the mapped address plus
        one stride per advance. */
    function Current(): (p: u64)
      reads this
      requires Valid()
      ensures p == Wrap64(mappedAddress + Advances * stride)
    {
      ptr
    }

    /** operator++: both the offset and the write pointer move by exactly one stride;
        nothing is bounds-checked and nothing else changes. */
    method Advance()
      requires Valid()
      modifies this
      ensures Valid() && Advances == old(Advances) + 1
      ensures currentOffset == Wrap64(old(currentOffset) + stride)
      ensures ptr == Wrap64(old(ptr) + stride)
    {
      ghost var moved := Advances * stride;
      MulSucc(Advances, stride);
      WrapAdd(moved, stride);
      WrapAdd(mappedAddress + moved, stride);
      currentOffset := Wrap64(currentOffset + stride);
      ptr := Wrap64(ptr + stride);
      Advances := Advances + 1;
    }

    /** GetGpuAddress(): the GPU address of the current record, the buffer's address plus
        one stride per advance. */
    function GetGpuAddress(): (address: u64)
      reads this
      requires Valid()
      ensures address == Wrap64(bufferGpuAddress + Advances * stride)
    {
      WrapAdd(Advances * stride, bufferGpuAddress);
      Wrap64(bufferGpuAddress + currentOffset)
    }
  }
}
