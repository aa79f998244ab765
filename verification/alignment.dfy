/** The `Align` helper (three identical copies: ResourceManager::Align, ShaderTable::Align
    and the file-static Align of App.cpp) and the Direct3D 12 constants it is used with.

    Align computes `(size + (alignment - 1)) & ~(alignment - 1)` on size_t. For a
    power-of-two alignment `a`, `& ~(a - 1)` clears the low log2(a) bits, which is
    ClearLowBits below; MaskClearsLowBits32/256 check that identity on the literal 64-bit
    mask for the two alignments the program uses. */
module Alignment {
  import opened SizeT

  /** D3D12_RAYTRACING_SHADER_RECORD_BYTE_ALIGNMENT (DirectX Raytracing, "Shader record"). */
  const SHADER_RECORD_BYTE_ALIGNMENT: u64 := 32

  /** D3D12_SHADER_IDENTIFIER_SIZE_IN_BYTES. */
  const SHADER_IDENTIFIER_SIZE_IN_BYTES: u64 := 32

  /** D3D12_CONSTANT_BUFFER_DATA_PLACEMENT_ALIGNMENT. */
  const CONSTANT_BUFFER_DATA_PLACEMENT_ALIGNMENT: u64 := 256

  predicate IsPowerOfTwo(a: nat)
    decreases a
  {
    a == 1 || (a >= 2 && a % 2 == 0 && IsPowerOfTwo(a / 2))
  }

  /** `x & ~(a - 1)` for a power-of-two `a`: drop the lowest bit, clear the low bits of
      the rest, shift back. The result is x rounded down to a multiple of a. */
  function ClearLowBits(x: nat, a: nat): (r: nat)
    requires IsPowerOfTwo(a)
    ensures r <= x && r % a == 0 && x - r < a
    decreases a
  {
    if a == 1 then x
    else
      var high := ClearLowBits(x / 2, a / 2);
      ShiftBackStep(x, a, high);
      2 * high
  }

  /** Shifting a rounded-down `x / 2` back left rounds `x` down to twice the alignment. */
  lemma ShiftBackStep(x: nat, a: nat, high: nat)
    requires a >= 2 && a % 2 == 0
    requires high <= x / 2 && high % (a / 2) == 0 && x / 2 - high < a / 2
    ensures 2 * high <= x && (2 * high) % a == 0 && x - 2 * high < a
  {
    var k := high / (a / 2);
    assert high == k * (a / 2);
    assert 2 * high == k * a;
    DivModUnique(2 * high, k, 0, a);
  }

  /** ResourceManager::Align / ShaderTable::Align / App.cpp Align: round `size` up to a
      multiple of `alignment`, with the addition wrapping like size_t does. */
  function Align(size: u64, alignment: u64): (r: u64)
    requires IsPowerOfTwo(alignment)
    ensures r % alignment == 0
    ensures size + alignment <= 0x1_0000_0000_0000_0000 ==> size <= r < size + alignment
  {
    ClearLowBits(Wrap64(size + (alignment - 1)), alignment)
  }

  /** Align returns the SMALLEST multiple of the alignment that is at least `size`. */
  lemma AlignIsSmallest(size: u64, alignment: u64, m: nat)
    requires IsPowerOfTwo(alignment)
    requires size + alignment <= 0x1_0000_0000_0000_0000
    requires m % alignment == 0 && size <= m
    ensures Align(size, alignment) <= m
  {
    var r := Align(size, alignment);
    if m < r {
      // r and m are multiples of the alignment with m < r < size + alignment <= m + alignment
      MultiplesApart(m, r, alignment);
    }
  }

  /** Two distinct multiples of a are at least a apart. */
  lemma MultiplesApart(m: nat, r: nat, a: nat)
    requires a > 0 && m % a == 0 && r % a == 0 && m < r
    ensures r - m >= a
  {
    if r - m < a {
      assert m == (m / a) * a;
      DivModUnique(r, m / a, r - m, a);
    }
  }

  /** A size that is already a multiple of the alignment is returned unchanged. */
  lemma AlignKeepsAligned(size: u64, alignment: u64)
    requires IsPowerOfTwo(alignment)
    requires size % alignment == 0 && size + alignment <= 0x1_0000_0000_0000_0000
    ensures Align(size, alignment) == size
  {
    AlignIsSmallest(size, alignment, size);
  }

  /** When `size + alignment - 1` overflows size_t, the sum wraps below the alignment and
      Align returns 0: the result is then smaller than `size`. */
  lemma AlignWrapsToZero(size: u64, alignment: u64)
    requires IsPowerOfTwo(alignment)
    requires size + alignment > 0x1_0000_0000_0000_0000
    ensures Align(size, alignment) == 0
  {
    var x := Wrap64(size + (alignment - 1));
    assert x == size + (alignment - 1) - 0x1_0000_0000_0000_0000;
    var r := ClearLowBits(x, alignment);
    if r > 0 {
      MultiplesApart(0, r, alignment);
    }
  }

  /** The literal 64-bit mask `x & ~(32 - 1)` rounds down to a multiple of 32. */
  lemma MaskClearsLowBits32(x: bv64)
    ensures x & !(32 - 1) == x - x % 32
  {
  }

  /** The literal 64-bit mask `x & ~(256 - 1)` rounds down to a multiple of 256. */
  lemma MaskClearsLowBits256(x: bv64)
    ensures x & !(256 - 1) == x - x % 256
  {
  }

  /** Rounding down to a power of two leaves x minus its remainder modulo a: the value
      MaskClearsLowBits32 and MaskClearsLowBits256 state for the 64-bit masks. */
  lemma ClearLowBitsIsFloor(x: nat, a: nat)
    requires IsPowerOfTwo(a)
    ensures ClearLowBits(x, a) == x - x % a
  {
    var r := ClearLowBits(x, a);
    var m := x - x % a;
    assert x == (x / a) * a + x % a;
    SizeT.DivModUnique(m, x / a, 0, a);
    if r < m {
      MultiplesApart(r, m, a);
    } else if m < r {
      MultiplesApart(m, r, a);
    }
  }

  /** The alignments the program passes are powers of two. */
  lemma ConstantsArePowersOfTwo()
    ensures IsPowerOfTwo(SHADER_RECORD_BYTE_ALIGNMENT as nat)
    ensures IsPowerOfTwo(CONSTANT_BUFFER_DATA_PLACEMENT_ALIGNMENT as nat)
  {
    assert IsPowerOfTwo(1) && IsPowerOfTwo(2) && IsPowerOfTwo(4) && IsPowerOfTwo(8);
    assert IsPowerOfTwo(16) && IsPowerOfTwo(32);
    assert IsPowerOfTwo(64) && IsPowerOfTwo(128) && IsPowerOfTwo(256);
  }
}
