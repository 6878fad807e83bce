/**
 Address alignment of the allocator (mem/mem.c:38-72): the 32-bit code form
 `AlignPtr` / `AlignedSize` and the unbounded form `AlignUp` it agrees with.
 */
module Alignment {
  import opened Words

  /** `align_ptr`: add and mask, all modulo 2^32. */
  function AlignPtr(p: nat, align: nat): nat
    requires 1 <= align < TWO32
  {
    And(Wrap(p + (align - 1)), Not(align - 1))
  }

  /** The same rounding without the 32-bit limit. */
  function AlignUp(p: nat, align: nat): (r: nat)
    requires 1 <= align
    ensures p <= r < p + align
  {
    AndLe(p + (align - 1), align - 1);
    p + (align - 1) - And(p + (align - 1), align - 1)
  }

  /** `sizeof(struct block_header)` and `sizeof(struct free_block)`. */
  const HEADER_SIZE: nat := 8
  const NODE_SIZE: nat := 8

  /** `aligned_mem_start` for the block at address `addr`. */
  function AlignedMemStart(addr: nat, align: nat): nat
    requires 1 <= align < TWO32
  {
    AlignPtr(Wrap(addr + HEADER_SIZE), align)
  }

  /** `aligned_size` for a block of `size` bytes at `addr`, with its unsigned subtractions. */
  function AlignedSize(addr: nat, size: nat, align: nat): nat
    requires 1 <= align < TWO32
  {
    var offset := Wrap(AlignedMemStart(addr, align) - addr);
    if offset > size then 0 else size - offset
  }

  /** For every alignment, a power of two or not: the bits of the 32-bit sum that are clear in `align - 1`. */
  lemma AlignPtrBits(p: nat, align: nat, k: nat)
    requires 1 <= align < TWO32 && k < 32
    ensures Bit(AlignPtr(p, align), k) == 1
            <==> Bit((p + align - 1) % 0x1_0000_0000, k) == 1 && Bit(align - 1, k) == 0
  {
    hide And, Bit;
    Pow2Is32();
    AndBits(Wrap(p + (align - 1)), Not(align - 1), k);
    ComplementBits(align - 1, 32, k);
  }

  /** Without wrap-around the code rounds up exactly; with it, it loses precisely 2^32. */
  lemma AlignPtrIsAlignUp(p: nat, align: nat)
    requires p < TWO32 && 1 <= align < TWO32
    ensures p + (align - 1) < TWO32 ==> AlignPtr(p, align) == AlignUp(p, align)
    ensures p + (align - 1) >= TWO32 ==> AlignPtr(p, align) == AlignUp(p, align) - TWO32
  {
    hide And, Pow2;
    var x, y := p + (align - 1), align - 1;
    Pow2Is32();
    AndComplement(Wrap(x), y, 32);
    if x >= TWO32 {
      assert Wrap(x) == x - TWO32;
      AndDropHigh(Wrap(x), y, 32);
    }
  }

  lemma RoundDown(x: nat, m: nat, q: nat)
    requires m > 0
    ensures (x - x % m) % m == 0
    ensures q % m == 0 && x < q + m ==> x - x % m <= q
  {
    var d := x / m;
    assert x - x % m == m * d;
    ModUnique(m * d, m, d, 0);
    if q % m == 0 && x < q + m {
      var e := q / m;
      assert q == m * e;
      assert m * (d - e) == m * d - m * e;
      MulBounds(d - e, m);
    }
  }

  /** For a power of two the result is the least multiple at or above the address. */
  lemma AlignUpIsLeastMultiple(p: nat, k: nat, q: nat)
    ensures AlignUp(p, Pow2(k)) % Pow2(k) == 0
    ensures q >= p && q % Pow2(k) == 0 ==> AlignUp(p, Pow2(k)) <= q
  {
    var x := p + (Pow2(k) - 1);
    AndLowMask(x, k);
    RoundDown(x, Pow2(k), q);
  }

  /** `align_ptr` on a power of two: the least multiple when it exists below 2^32, else 0. */
  lemma AlignPtrPow2(p: nat, k: nat, q: nat)
    requires p < TWO32 && k < 32
    ensures Pow2(k) < TWO32
    ensures p + (Pow2(k) - 1) >= TWO32 ==> AlignPtr(p, Pow2(k)) == 0
    ensures p + (Pow2(k) - 1) < TWO32 ==>
              var r := AlignPtr(p, Pow2(k));
              p <= r && r % Pow2(k) == 0 && (q >= p && q % Pow2(k) == 0 ==> r <= q)
  {
    Pow2Is32();
    Pow2Monotone(k, 32);
    AlignPtrIsAlignUp(p, Pow2(k));
    AlignUpIsLeastMultiple(p, k, q);
    AlignUpIsLeastMultiple(p, k, TWO32);
    Pow2Divides(k, 32);
  }

  /** Rounding that wraps around lands below the block, so nothing is left of it. */
  lemma WrappedSizeIsZero(addr: nat, size: nat, align: nat)
    requires 8 <= addr && NODE_SIZE <= size && addr + size < TWO32
    requires 1 <= align < TWO32 && addr + HEADER_SIZE + (align - 1) >= TWO32
    ensures AlignedSize(addr, size, align) == 0
  {
    hide And, Bit;
    var x := addr + HEADER_SIZE + (align - 1);
    var start := AlignPtr(addr + HEADER_SIZE, align);
    // the masked result is at most both the wrapped sum and the mask itself
    AndLe(Wrap(x), Not(align - 1));
    assert Wrap(x) == x - TWO32;
    assert start < addr;
    assert Wrap(start - addr) == TWO32 + start - addr;
  }

  /**
   The fit test of the allocation loop is exactly "the rounded-up payload ends
   inside the block". In particular a request whose rounding wraps around never fits.
   */
  lemma AlignedSizeIsFit(addr: nat, size: nat, align: nat, request: nat)
    requires 8 <= addr && NODE_SIZE <= size && addr + size < TWO32
    requires 1 <= align < TWO32 && 1 <= request
    ensures AlignedSize(addr, size, align) >= request
            <==> AlignUp(addr + HEADER_SIZE, align) + request <= addr + size
    ensures AlignUp(addr + HEADER_SIZE, align) + request <= addr + size
            ==> AlignedMemStart(addr, align) == AlignUp(addr + HEADER_SIZE, align)
  {
    var p := addr + HEADER_SIZE;
    assert Wrap(p) == p;
    AlignPtrIsAlignUp(p, align);
    if p + (align - 1) >= TWO32 {
      WrappedSizeIsZero(addr, size, align);
      assert AlignUp(p, align) >= TWO32;
    } else {
      var start := AlignUp(p, align);
      assert Wrap(start - addr) == start - addr;
    }
  }
}
