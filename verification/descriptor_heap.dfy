/** DescriptorHeap: a bump allocator over a fixed-capacity shader-visible descriptor
    heap. It hands out paired CPU/GPU descriptor handles in allocation order, one
    handle increment apart, and fails once every descriptor has been handed out. */
module DescriptorHeaps {
  import opened SizeT

  /** DescriptorHeap::Handles: D3D12_CPU_DESCRIPTOR_HANDLE::ptr (SIZE_T) and
      D3D12_GPU_DESCRIPTOR_HANDLE::ptr (UINT64). */
  datatype Handles = Handles(cpu: u64, gpu: u64)

  /** The handle `k` increments after `start`, with the 64-bit wrap of `ptr +=`. */
  function HandleAt(start: u64, k: nat, increment: u32): u64
  {
    Wrap64(start + k * increment)
  }

  /** Bumping a handle by one increment reaches the next slot. */
  lemma HandleAtNext(start: u64, k: nat, increment: u32)
    ensures HandleAt(start, k + 1, increment) == Wrap64(HandleAt(start, k, increment) + increment)
  {
    WrapAdd(start + k * increment, increment);
    MulSucc(k, increment);
  }

  /** The handles of distinct slots are distinct, so no descriptor is handed out twice,
      as long as the whole heap lies below 2^64. */
  lemma {:induction false} HandlesDistinct(start: u64, increment: u32, capacity: nat, j: nat, k: nat)
    requires 0 < increment && start + capacity * increment <= 0x1_0000_0000_0000_0000
    requires j < k < capacity
    ensures HandleAt(start, j, increment) < HandleAt(start, k, increment)
  {
    MulSucc(j, increment);
    MulMonotone(j + 1, k, increment);
    MulSucc(k, increment);
    MulMonotone(k + 1, capacity, increment);
  }

  class DescriptorHeap {
    /** m_descriptorSize: GetDescriptorHandleIncrementSize for the heap type. */
    const descriptorSize: u32
    /** m_totalSize: the NumDescriptors of the heap description. */
    const totalSize: u64
    /** The handles GetCPU/GPUDescriptorHandleForHeapStart returned. */
    ghost const heapStart: Handles

    /** m_currentHandles: the next handle pair to hand out. */
    var currentHandles: Handles
    /** m_currentSize: how many descriptors have been handed out. */
    var currentSize: u64

    /** The allocator never hands out more than the heap holds, and the next handle pair
        sits `currentSize` increments after the heap start. */
    ghost predicate Valid()
      reads this
    {
      currentSize <= totalSize &&
      currentHandles == Handles(HandleAt(heapStart.cpu, currentSize, descriptorSize),
                                HandleAt(heapStart.gpu, currentSize, descriptorSize))
    }

    /** DescriptorHeap(heapDesc, device): the device supplies the increment size and the
        heap-start handles; nothing has been allocated yet. */
    constructor (numDescriptors: u32, incrementSize: u32, cpuStart: u64, gpuStart: u64)
      ensures Valid()
      ensures descriptorSize == incrementSize && totalSize == numDescriptors
      ensures heapStart == Handles(cpuStart, gpuStart)
      ensures currentHandles == heapStart && currentSize == 0
    {
      descriptorSize := incrementSize;
      totalSize := numDescriptors;
      heapStart := Handles(cpuStart, gpuStart);
      currentHandles := Handles(cpuStart, gpuStart);
      currentSize := 0;
    }

    /** Allocate(): fails with "No descriptors left" exactly when the heap is full, and
        then changes nothing; otherwise returns the current handle pair, which is the
        pair `k` increments after the heap start for the k-th allocation, and advances
        both handles by one increment. */
    method Allocate() returns (r: Result<Handles>)
      requires Valid()
      modifies this
      ensures Valid()
      ensures old(currentSize) >= totalSize ==>
                r == Failure("No descriptors left") &&
                currentHandles == old(currentHandles) && currentSize == old(currentSize)
      ensures old(currentSize) < totalSize ==>
                r == Success(old(currentHandles)) &&
                r.value == Handles(HandleAt(heapStart.cpu, old(currentSize), descriptorSize),
                                   HandleAt(heapStart.gpu, old(currentSize), descriptorSize)) &&
                currentSize == old(currentSize) + 1 &&
                currentHandles == Handles(Wrap64(old(currentHandles).cpu + descriptorSize),
                                          Wrap64(old(currentHandles).gpu + descriptorSize))
    {
      if currentSize >= totalSize {
        return Failure("No descriptors left");
      }

      var res := currentHandles;

      HandleAtNext(heapStart.cpu, currentSize, descriptorSize);
      HandleAtNext(heapStart.gpu, currentSize, descriptorSize);
      currentHandles := Handles(Wrap64(currentHandles.cpu + descriptorSize),
                                Wrap64(currentHandles.gpu + descriptorSize));

      currentSize := currentSize + 1;

      return Success(res);
    }
  }
}
