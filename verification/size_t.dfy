/** Fixed-width unsigned integers of the renderer (size_t, uint64_t, uint32_t, std::byte)
    and the failure-carrying result type used for the `throw` paths.

    Integers are Dafny's unbounded `int`, restricted by subset types; every place where
    the C++ code could wrap around applies Wrap64 (or Trunc32 for a narrowing cast)
    explicitly. */
module SizeT {

  /** size_t, uint64_t, D3D12_GPU_VIRTUAL_ADDRESS, SIZE_T descriptor pointers (x64). */
  type u64 = x: int | 0 <= x < 0x1_0000_0000_0000_0000

  /** uint32_t, UINT. */
  type u32 = x: int | 0 <= x < 0x1_0000_0000

  /** std::byte / uint8_t. */
  type byte = bv8

  /** The value an unsigned 64-bit operation leaves behind: the exact result modulo 2^64. */
  function Wrap64(x: int): (r: u64)
    ensures 0 <= x < 0x1_0000_0000_0000_0000 ==> r == x
    ensures (x - r) % 0x1_0000_0000_0000_0000 == 0
  {
    x % 0x1_0000_0000_0000_0000
  }

  /** static_cast<uint32_t> of a 64-bit value: the low 32 bits are kept. */
  function Trunc32(x: u64): (r: u32)
    ensures x < 0x1_0000_0000 ==> r == x
    ensures (x - r) % 0x1_0000_0000 == 0
  {
    x % 0x1_0000_0000
  }

  /** Adding to a wrapped value wraps like adding to the exact value: the fact that lets a
      pointer bumped k times be described by one multiplication. */
  lemma WrapAdd(x: int, y: int)
    ensures Wrap64(Wrap64(x) + y) == Wrap64(x + y)
  {
    var m := 0x1_0000_0000_0000_0000;
    var q := x / m;
    assert x == q * m + Wrap64(x);
    assert x + y == q * m + (Wrap64(x) + y);
    ModShift(Wrap64(x) + y, q, m);
  }

  /** Adding a multiple of m does not change a remainder modulo m. */
  lemma ModShift(v: int, q: int, m: int)
    requires m > 0
    ensures (q * m + v) % m == v % m
  {
    var r := v % m;
    var k := q + v / m;
    assert q * m + v == k * m + r by {
      assert v == (v / m) * m + r;
      assert q * m + (v / m) * m == (q + v / m) * m;
    }
    DivModUnique(q * m + v, k, r, m);
  }

  /** Euclidean division is unique: a quotient and a remainder in [0, m) are THE quotient
      and remainder. */
  lemma DivModUnique(t: int, k: int, r: int, m: int)
    requires m > 0 && 0 <= r < m && t == k * m + r
    ensures t / m == k && t % m == r
  {
    var d := t / m - k;
    assert d * m == r - t % m by {
      assert t == (t / m) * m + t % m;
      assert (t / m) * m - k * m == (t / m - k) * m;
    }
  }

  lemma MulAtLeastOne(x: nat, k: nat)
    requires k >= 1
    ensures x <= x * k
  {
    assert x * k == x + x * (k - 1);
  }

  lemma MulMonotone(x: nat, y: nat, k: nat)
    requires x <= y
    ensures x * k <= y * k
  {
    assert y * k == x * k + (y - x) * k;
  }

  lemma MulSucc(x: int, k: int)
    ensures (x + 1) * k == x * k + k
  {
  }

  datatype Result<T> = Success(value: T) | Failure(error: string)
  {
    predicate IsFailure() { Failure? }
  }
}
