/** ShaderTable: a fixed-stride array of shader records in an upload-heap buffer. The
    record stride is sizeof(T) rounded up to the shader-record alignment that DirectX
    Raytracing requires of every record (32 bytes). */
module ShaderTables {
  import opened SizeT
  import opened Alignment
  import opened UploadIterators

  /** The stride ShaderTable::Create<T> gives records of `recordSize` (= sizeof(T)) bytes. */
  function RecordStride(recordSize: u64): (stride: u64)
  {
    ConstantsArePowersOfTwo();
    Align(recordSize, SHADER_RECORD_BYTE_ALIGNMENT)
  }

  /** Every record fits in its stride, and the stride meets the shader-record alignment,
      whenever sizeof(T) + 32 does not overflow size_t. */
  lemma RecordStrideFitsRecord(recordSize: u64)
    requires recordSize + SHADER_RECORD_BYTE_ALIGNMENT <= 0x1_0000_0000_0000_0000
    ensures recordSize <= RecordStride(recordSize) < recordSize + SHADER_RECORD_BYTE_ALIGNMENT
    ensures RecordStride(recordSize) % SHADER_RECORD_BYTE_ALIGNMENT == 0
  {
    ConstantsArePowersOfTwo();
  }

  class ShaderTable {
    /** m_size: numRecords * m_stride, in size_t arithmetic. */
    var size: u64
    /** m_stride. */
    var stride: u64
    /** Width of the committed upload buffer, m_size * m_stride. */
    var allocatedBytes: u64
    /** m_resource->GetGPUVirtualAddress() of that buffer. */
    var gpuAddress: u64

    /** The private constructor: stores the stride, sizes the table and allocates an
        upload buffer of m_size * m_stride bytes (the driver supplies its address). */
    constructor (numRecords: u64, stride: u64, bufferGpuAddress: u64)
      ensures this.stride == stride
      ensures size == Wrap64(numRecords * stride)
      ensures allocatedBytes == Wrap64(size * stride)
      ensures gpuAddress == bufferGpuAddress
    {
      var tableSize := Wrap64(numRecords * stride);
      this.stride := stride;
      size := tableSize;
      allocatedBytes := Wrap64(tableSize * stride);
      gpuAddress := bufferGpuAddress;
    }

    /** ShaderTable::Create<T>(numRecords): the stride is sizeof(T) aligned to 32 bytes. */
    static method Create(numRecords: u64, recordSize: u64, bufferGpuAddress: u64)
      returns (table: ShaderTable)
      ensures fresh(table)
      ensures table.stride == RecordStride(recordSize)
      ensures table.size == Wrap64(numRecords * table.stride)
      ensures table.allocatedBytes == Wrap64(table.size * table.stride)
      ensures table.gpuAddress == bufferGpuAddress
    {
      table := new ShaderTable(numRecords, RecordStride(recordSize), bufferGpuAddress);
    }

    /** GetGpuAddress(): where the table's buffer starts on the GPU. */
    function GetGpuAddress(): u64
      reads this
    {
      gpuAddress
    }

    /** GetSize(): m_size narrowed to uint32_t. */
    function GetSize(): (r: u32)
      reads this
      ensures size < 0x1_0000_0000 ==> r == size
      ensures (size - r) % 0x1_0000_0000 == 0
    {
      Trunc32(size)
    }

    /** GetStride(): m_stride narrowed to uint32_t. */
    function GetStride(): (r: u32)
      reads this
      ensures stride < 0x1_0000_0000 ==> r == stride
      ensures (stride - r) % 0x1_0000_0000 == 0
    {
      Trunc32(stride)
    }

    /** GetUploadIterator<T>(): an iterator over this table's buffer that advances by the
        table's stride, starting at the first record. */
    method GetUploadIterator(mappedAddress: u64) returns (it: UploadIterator)
      ensures fresh(it) && it.Valid() && it.Advances == 0
      ensures it.stride == stride && it.bufferGpuAddress == gpuAddress
      ensures it.GetGpuAddress() == gpuAddress
      ensures it.mappedAddress == mappedAddress && it.ptr == mappedAddress && it.currentOffset == 0
    {
      it := new UploadIterator(gpuAddress, mappedAddress, stride);
    }
  }

  /** Record i of a table with numRecords records starts at i * stride and ends within
      the allocation of m_size * m_stride bytes, when nothing overflows and stride >= 1. */
  lemma {:induction false} RecordInsideAllocation(numRecords: u64, stride: u64, i: nat)
    requires 1 <= stride && i < numRecords
    requires numRecords * stride * stride < 0x1_0000_0000_0000_0000
    ensures i * stride + stride <= Wrap64(Wrap64(numRecords * stride) * stride)
  {
    var size := numRecords * stride;
    assert size <= size * stride by { MulAtLeastOne(size, stride); }
    assert Wrap64(size) == size;
    assert (i + 1) * stride <= numRecords * stride by { MulMonotone(i + 1, numRecords, stride); }
  }
}
