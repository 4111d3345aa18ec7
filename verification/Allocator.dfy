// The page allocator addr_alloc_t of source/kernel/core/memory.c. Frames are named by number, that is by
// physical address / 4096; a frame of the pool is in use when its bit is set.
// The mutex around each operation is the subject of AtomicAlloc.dfy.
module Allocator {
  import opened Bitmaps

  // The bits v of the pool [lo, hi) say that exactly the frames in used are handed out.
  ghost predicate Represents(v: seq<bool>, used: set<nat>, lo: nat, hi: nat) {
    && lo <= hi && |v| == hi - lo
    && (forall f :: f in used ==> lo <= f < hi)
    && forall k :: 0 <= k < hi - lo ==> (v[k] <==> lo + k in used)
  }

  lemma LeastFree(v: seq<bool>, used: set<nat>, lo: nat, hi: nat, index: int)
    requires Represents(v, used, lo, hi) && FirstFit(v, false, 1, index)
    ensures index == -1 <==> forall g :: lo <= g < hi ==> g in used
    ensures index != -1 ==> 0 <= index < hi - lo && lo + index !in used
    ensures index != -1 ==> forall g :: lo <= g < lo + index ==> g in used
    ensures index != -1 ==> Represents(SetRange(v, index, 1, true), used + {lo + index}, lo, hi)
  {
    SingleBit(v, false, index);
    forall g | lo <= g < hi
      ensures g in used <==> v[g - lo]
    {
      assert lo + (g - lo) == g;
    }
  }

  lemma FreeRange(v: seq<bool>, used: set<nat>, lo: nat, hi: nat, f: nat, count: nat)
    requires Represents(v, used, lo, hi) && lo <= f
    ensures Represents(SetRange(v, f - lo, count, false), (set g | g in used && !(f <= g < f + count)), lo, hi)
  {
  }

  lemma SetNothing(v: seq<bool>, index: nat, count: nat)
    requires index >= |v|
    ensures SetRange(v, index, count, false) == v
  {
  }

  class PageAllocator {
    const bitmap: Bitmap
    const lo: nat                  // start / page_size
    const hi: nat                  // (start + size) / page_size
    ghost var used: set<nat>       // the frames handed out

    ghost predicate Valid()
      reads this, bitmap.bits
    {
      && bitmap.Valid()
      && 0 < lo <= hi <= 0x10_0000
      && bitmap.bitCount == hi - lo
      && Represents(bitmap.View(), used, lo, hi)
    }

    // addr_alloc_init
    constructor (bits: array<bv8>, lo: nat, hi: nat)
      requires 0 < lo <= hi <= 0x10_0000 && ByteCount(hi - lo) <= bits.Length
      modifies bits
      ensures Valid() && used == {} && this.lo == lo && this.hi == hi && bitmap.bits == bits && fresh(bitmap)
    {
      this.bitmap := new Bitmap(bits, hi - lo, 0);
      this.lo, this.hi, this.used := lo, hi, {};
    }

    // addr_alloc_page for one page: the lowest free frame, or 0 when there is none.
    method AllocPage() returns (f: nat)
      requires Valid()
      modifies this`used, bitmap.bits
      ensures Valid()
      ensures f == 0 <==> forall g :: lo <= g < hi ==> g in old(used)
      ensures f == 0 ==> used == old(used)
      ensures f != 0 ==> lo <= f < hi && f !in old(used) && used == old(used) + {f}
      ensures f != 0 ==> forall g :: lo <= g < f ==> g in old(used)
    {
      hide Represents, FirstFit, SetRange, BitsOf;
      f := 0;
      ghost var v := bitmap.View();
      var index := bitmap.AllocNbits(0, 1);
      LeastFree(v, used, lo, hi, index);
      if index >= 0 {
        f := lo + index;
        used := used + {f};
      }
    }

    // addr_free_page. The page index is an unsigned difference: for an address below the pool it wraps
    // around, to an index that lies beyond the bitmap. So frames outside of the pool are ignored.
    method FreePages(f: nat, count: nat)
      requires Valid() && f < 0x10_0000
      modifies this`used, bitmap.bits
      ensures Valid()
      ensures lo <= f ==> used == set g | g in old(used) && !(f <= g < f + count)
      ensures f < lo ==> used == old(used)
    {
      hide Represents, SetRange, BitsOf;
      var index := (f - lo) % 0x10_0000;
      bitmap.SetBit(index, count, 0);
      if lo <= f {
        FreeRange(old(bitmap.View()), used, lo, hi, f, count);
        used := set g | g in used && !(f <= g < f + count);
      } else {
        assert index == f - lo + 0x10_0000;
        SetNothing(old(bitmap.View()), index, count);
      }
    }

    // kfree: one page. A frame that is not in use, or not of the pool, stays so.
    method Kfree(f: nat)
      requires Valid() && f < 0x10_0000
      modifies this`used, bitmap.bits
      ensures Valid() && used == old(used) - {f}
    {
      FreePages(f, 1);
      assert used == old(used) - {f};
    }
  }
}
