/** The size classes of kernel/src/mm/heap.c and the way from an object back to its slab. */
module SizeClasses {
  import opened Words
  import opened Pow
  import opened Bits
  import Slabs

  const CLASSES: nat := 8
  const SLAB_MASK: nat := 0xFFFF_FFFF_FFFF_F000

  /** g_cache_sizes. */
  function CacheSize(order: nat): nat { Pow2(order + 3) }

  /** The order heap_alloc and heap_free_size compute. */
  function Order(size: nat): int {
    if size <= 8 then 0 else 61 - Clz64(size - 1)
  }

  /** The header heap_free looks at. */
  function SlabOf(obj: nat): nat { And(obj, SLAB_MASK) }

  /** The order is the smallest class that holds the size, and exists up to 1024 bytes. */
  lemma SmallestClass(size: nat)
    ensures Order(size) >= 0 && size <= CacheSize(Order(size))
    ensures forall k: nat :: k < Order(size) ==> CacheSize(k) < size
    ensures Order(size) < CLASSES <==> size <= 1024
  {
    assert Pow2(3) == 8 && Pow2(4) == 16;
    if size > 8 {
      BitLengthBounds(size - 1);
      var n := BitLength(size - 1);
      Pow2Strict(3, n);
      forall k: nat | k < Order(size) ensures CacheSize(k) < size {
        Pow2Monotone(k + 3, n - 1);
      }
      Pow2Add(4, 6);
      assert Pow2(6) == 64;
      if n <= 10 {
        Pow2Monotone(n, 10);
      } else {
        Pow2Monotone(10, n - 1);
      }
    }
  }

  /** A cache's own object size leads back to that cache. */
  lemma OwnClass(order: nat)
    ensures Order(CacheSize(order)) == order
  {
    assert Pow2(3) == 8;
    SmallestClass(CacheSize(order));
    if order > 0 {
      Pow2Strict(3, order + 3);
      var o := Order(CacheSize(order));
      if o < order {
        Pow2Strict(order + 3, o + 3);
      }
    }
  }

  lemma PageBits()
    ensures Pow2(12) == 0x1000 && Pow2(52) == 0x10_0000_0000_0000
  {
    assert Pow2(4) == 16;
    Pow2Add(4, 4);
    Pow2Add(8, 4);
    assert Pow2(12) == 0x1000;
    Pow2Add(12, 12);
    Pow2Add(24, 24);
    Pow2Add(48, 4);
  }

  lemma MaskIsBase(obj: nat)
    requires obj < U64_RANGE
    ensures SlabOf(obj) == Slabs.Base(obj)
  {
    PageBits();
    hide Pow2, And, ShiftLeft, ShiftRight;
    var low: nat := 0xF_FFFF_FFFF_FFFF;
    ShiftLeftMul(low, 12);
    AndShift(obj, low, 12);
    ShiftRightDiv(obj, 12);
    AndLow(obj / 0x1000, 52);
    ShiftLeftMul(obj / 0x1000, 12);
  }
}
