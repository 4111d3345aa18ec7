// Memory as a program sees it: bytes at virtual addresses, translated by a page directory.
module Access {
  import opened Mmu
  import opened Paging
  import opened Bytes

  predicate VaMapped(m: Mem, r: nat, va: Word) {
    Mapped(m, r, PdeIndex(va), PteIndex(va)) && PageOf(m, r, PdeIndex(va), PteIndex(va)) < |m|
  }

  // The frame that directory r translates va to; the physical address is VaFrame * 4096 + Offset.
  function VaFrame(m: Mem, r: nat, va: Word): nat {
    PageOf(m, r, PdeIndex(va), PteIndex(va))
  }

  function VaByte(m: Mem, r: nat, va: Word): Byte
    requires VaMapped(m, r, va)
  {
    FrameByte(m[VaFrame(m, r, va)], va % 4096)
  }

  // The n addresses from va on do not wrap around and are mapped.
  ghost predicate RangeMapped(m: Mem, r: nat, va: nat, n: nat) {
    va + n <= 0x1_0000_0000 && forall k :: va <= k < va + n ==> VaMapped(m, r, k)
  }

  // None of the n bytes from va on is one of the bytes [o, o + n') of frame p.
  ghost predicate RangeAvoids(m: Mem, r: nat, va: nat, n: nat, p: nat, o: nat, n': nat)
    requires va + n <= 0x1_0000_0000
  {
    forall k :: va <= k < va + n ==> !(VaFrame(m, r, k) == p && o <= k % 4096 < o + n')
  }

  // A write to data frame p moves no address of any space.
  lemma DataFrameWrite(w: World, p: nat, x: Frame, r: nat, va: Word)
    requires Inv(w) && IsData(w, p) && p < |w.mem| && IsRoot(w, r)
    ensures DataWrite(w, w.mem[p := x]) && Inv(w.(mem := w.mem[p := x]))
    ensures VaMapped(w.mem[p := x], r, va) == VaMapped(w.mem, r, va)
    ensures VaFrame(w.mem[p := x], r, va) == VaFrame(w.mem, r, va)
  {
    IndicesAddress(va);
    DataWriteKeeps(w, w.mem[p := x]);
  }

  // y is x with the n bytes from offset o on replaced by those that directory r reads from src on.
  ghost predicate BytesCopied(m: Mem, r: nat, src: nat, n: nat, x: Frame, y: Frame, o: nat)
    requires RangeMapped(m, r, src, n)
  {
    forall k :: 0 <= k < 4096 ==> FrameByte(y, k) == if o <= k < o + n then VaByte(m, r, src + (k - o))
        else FrameByte(x, k)
  }

  // The memory w.mem with data frame p replaced by y, where n bytes are copied, and the next byte b to copy.
  lemma NextByte(w: World, r: nat, src: nat, n: nat, size: nat, p: nat, y: Frame, o: nat)
    requires Inv(w) && IsRoot(w, r) && IsData(w, p) && n < size && o + size <= 4096
    requires RangeMapped(w.mem, r, src, size) && RangeAvoids(w.mem, r, src, size, p, o, size)
    requires RangeMapped(w.mem, r, src, n) && p < |w.mem|
    requires BytesCopied(w.mem, r, src, n, w.mem[p], y, o)
    ensures VaMapped(w.mem[p := y], r, src + n)
    ensures RangeMapped(w.mem, r, src, n + 1)
    ensures BytesCopied(w.mem, r, src, n + 1, w.mem[p], PutFrameByte(y, o + n, VaByte(w.mem[p := y], r, src + n)), o)
  {
    hide *;
    ReadsOn(w, r, src, n, size, p, y, o);
    var b := VaByte(w.mem, r, src + n);
    PutFrameByteAll(y, o + n, b);
    BytesCopiedNext(w.mem, r, src, n, w.mem[p], y, PutFrameByte(y, o + n, b), o);
  }

  lemma PutFrameByteAll(y: Frame, o: nat, b: Byte)
    requires o < 4096
    ensures forall k :: 0 <= k < 4096 ==> FrameByte(PutFrameByte(y, o, b), k) == if k == o then b else FrameByte(y, k)
  {
    forall k | 0 <= k < 4096
      ensures FrameByte(PutFrameByte(y, o, b), k) == if k == o then b else FrameByte(y, k)
    {
      PutFrameByteAt(y, o, b, k);
    }
  }

  // The next byte to read is still the original one.
  lemma ReadsOn(w: World, r: nat, src: nat, n: nat, size: nat, p: nat, y: Frame, o: nat)
    requires Inv(w) && IsRoot(w, r) && IsData(w, p) && n < size && o + size <= 4096
    requires RangeMapped(w.mem, r, src, size) && RangeAvoids(w.mem, r, src, size, p, o, size)
    requires RangeMapped(w.mem, r, src, n) && p < |w.mem|
    requires BytesCopied(w.mem, r, src, n, w.mem[p], y, o)
    ensures src + n < 0x1_0000_0000 && RangeMapped(w.mem, r, src, n + 1)
    ensures VaMapped(w.mem, r, src + n) && VaMapped(w.mem[p := y], r, src + n)
    ensures VaByte(w.mem[p := y], r, src + n) == VaByte(w.mem, r, src + n)
  {
    hide *;
    RangeNext(w.mem, r, src, n, size);
    DataFrameWrite(w, p, y, r, src + n);
    AvoidedAt(w.mem, r, src, n, size, p, o);
    SplitByte(src + n);
    OtherByteSame(w.mem[p], y, w.mem, r, src, n, o, (src + n) % 4096);
    SameByte(w.mem, p, y, r, src + n);
  }

  lemma SplitByte(va: Word)
    ensures 0 <= va % 4096 < 4096
  {
  }

  lemma RangeNext(m: Mem, r: nat, src: nat, n: nat, size: nat)
    requires RangeMapped(m, r, src, size) && n < size
    ensures src + size <= 0x1_0000_0000 && VaMapped(m, r, src + n) && RangeMapped(m, r, src, n + 1)
  {
    hide VaMapped;
  }

  lemma AvoidedAt(m: Mem, r: nat, src: nat, n: nat, size: nat, p: nat, o: nat)
    requires src + size <= 0x1_0000_0000 && RangeAvoids(m, r, src, size, p, o, size) && n < size
    ensures VaFrame(m, r, src + n) == p ==> !(o <= (src + n) % 4096 < o + size)
  {
    hide VaFrame;
  }

  lemma SameByte(m: Mem, p: nat, y: Frame, r: nat, va: Word)
    requires p < |m| && VaMapped(m, r, va) && VaMapped(m[p := y], r, va)
    requires VaFrame(m[p := y], r, va) == VaFrame(m, r, va)
    requires VaFrame(m, r, va) == p ==> FrameByte(y, va % 4096) == FrameByte(m[p], va % 4096)
    ensures VaByte(m[p := y], r, va) == VaByte(m, r, va)
  {
    hide FrameByte, Mapped, PageOf;
  }

  // While n bytes have been copied, a byte of the frame outside of the whole range is the original one.
  lemma OtherByteSame(x: Frame, y: Frame, m: Mem, r: nat, src: nat, n: nat, o: nat, k: nat)
    requires RangeMapped(m, r, src, n) && BytesCopied(m, r, src, n, x, y, o) && k < 4096
    ensures !(o <= k < o + n) ==> FrameByte(y, k) == FrameByte(x, k)
  {
    hide FrameByte, VaByte, VaMapped;
  }

  lemma BytesCopiedNext(m: Mem, r: nat, src: nat, n: nat, x: Frame, y: Frame, z: Frame, o: nat)
    requires RangeMapped(m, r, src, n + 1) && RangeMapped(m, r, src, n) && o + n < 4096
    requires BytesCopied(m, r, src, n, x, y, o)
    requires forall k :: 0 <= k < 4096 ==> FrameByte(z, k) == if k == o + n then VaByte(m, r, src + n)
        else FrameByte(y, k)
    ensures BytesCopied(m, r, src, n + 1, x, z, o)
  {
    hide FrameByte;
  }

  // The addresses of page (i, j) are those of one frame.
  lemma PageRange(m: Mem, r: nat, i: nat, j: nat)
    requires i < 1024 && j < 1024 && Mapped(m, r, i, j) && PageOf(m, r, i, j) < |m|
    ensures RangeMapped(m, r, Address(i, j, 0), 4096)
    ensures forall va :: Address(i, j, 0) <= va < Address(i, j, 0) + 4096 ==>
              VaFrame(m, r, va) == PageOf(m, r, i, j) && va % 4096 == va - Address(i, j, 0)
  {
    forall va | Address(i, j, 0) <= va < Address(i, j, 0) + 4096
      ensures PdeIndex(va) == i && PteIndex(va) == j && va % 4096 == va - Address(i, j, 0)
    {
      AddressIndices(i, j, va - Address(i, j, 0));
      assert va == Address(i, j, va - Address(i, j, 0));
    }
  }

  // A whole page copied: the two frames are equal.
  lemma WholePage(m: Mem, r: nat, i: nat, j: nat, x: Frame, y: Frame)
    requires i < 1024 && j < 1024 && Mapped(m, r, i, j) && PageOf(m, r, i, j) < |m|
    requires RangeMapped(m, r, Address(i, j, 0), 4096)
    requires BytesCopied(m, r, Address(i, j, 0), 4096, x, y, 0)
    ensures y == m[PageOf(m, r, i, j)]
  {
    hide FrameByte, BytesCopied, Mapped, PageOf;
    forall k: nat | k < 4096
      ensures FrameByte(y, k) == FrameByte(m[PageOf(m, r, i, j)], k)
    {
      PageByte(m, r, i, j, x, y, k);
    }
    SameBytesSameFrame(y, m[PageOf(m, r, i, j)]);
  }

  lemma PageByte(m: Mem, r: nat, i: nat, j: nat, x: Frame, y: Frame, k: nat)
    requires i < 1024 && j < 1024 && Mapped(m, r, i, j) && PageOf(m, r, i, j) < |m| && k < 4096
    requires RangeMapped(m, r, Address(i, j, 0), 4096)
    requires BytesCopied(m, r, Address(i, j, 0), 4096, x, y, 0)
    ensures FrameByte(y, k) == FrameByte(m[PageOf(m, r, i, j)], k)
  {
    PageRange(m, r, i, j);
    hide FrameByte, Mapped, PageOf, VaFrame, Address;
    var va := Address(i, j, 0) + k;
    assert VaFrame(m, r, va) == PageOf(m, r, i, j) && va % 4096 == k;
    assert FrameByte(y, k) == VaByte(m, r, Address(i, j, 0) + (k - 0));
  }

  // In the user half of a directory no two addresses share a byte of memory.
  lemma VaInjective(w: World, d: nat, va: Word, va': Word)
    requires Inv(w) && IsDirectory(w, d) && 0x8000_0000 <= va && 0x8000_0000 <= va'
    requires VaMapped(w.mem, d, va) && VaMapped(w.mem, d, va')
    requires VaFrame(w.mem, d, va) == VaFrame(w.mem, d, va') && va % 4096 == va' % 4096
    ensures va == va'
  {
    IndicesAddress(va);
    IndicesAddress(va');
    assert Owned(w, VaFrame(w.mem, d, va), Page(d, PdeIndex(va), PteIndex(va)));
    assert Owned(w, VaFrame(w.mem, d, va'), Page(d, PdeIndex(va'), PteIndex(va')));
  }

  // User addresses of a directory lead to its own pages, which are data.
  lemma VaOwner(w: World, d: nat, va: Word)
    requires Inv(w) && IsDirectory(w, d) && 0x8000_0000 <= va && VaMapped(w.mem, d, va)
    ensures Owned(w, VaFrame(w.mem, d, va), Page(d, PdeIndex(va), PteIndex(va)))
    ensures IsData(w, VaFrame(w.mem, d, va))
  {
    IndicesAddress(va);
  }
}
