// Writing into an address space that is not the one in use: memory_get_paddr and memory_copy_uvm_data of
// source/kernel/core/memory.c.
module UserCopy {
  import opened Mmu
  import opened Paging
  import opened Spaces
  import opened Bytes
  import opened Access
  import opened Memory

  // memory_get_paddr. It does not look at the present bit of the page-table entry.
  function PaddrOf(m: Mem, r: nat, va: Word): Word {
    if HasTable(m, r, PdeIndex(va)) then PageOf(m, r, PdeIndex(va), PteIndex(va)) * 4096 + Offset(va) else 0
  }

  // For a mapped address the result is its translation.
  lemma PaddrTranslates(m: Mem, r: nat, va: Word)
    requires VaMapped(m, r, va)
    ensures PaddrOf(m, r, va) / 4096 == VaFrame(m, r, va) && PaddrOf(m, r, va) % 4096 == va % 4096
  {
    SplitAt4096(VaFrame(m, r, va), va % 4096);
  }

  // For an address of the user half the result 0 means "not mapped", and only that, exactly if there is no table
  // for it, or its entry is present, or it is the first address of its page. Elsewhere, in a page without a
  // mapping whose slot has a table, the result looks like a physical address in frame 0.
  lemma PaddrMissesUnmapped(w: World, d: nat, va: Word)
    requires Inv(w) && IsDirectory(w, d) && 0x8000_0000 <= va
    ensures (PaddrOf(w.mem, d, va) == 0 <==> !VaMapped(w.mem, d, va)) <==>
            !HasTable(w.mem, d, PdeIndex(va)) || Present(Pte(w.mem, d, PdeIndex(va), PteIndex(va))) || Offset(va) == 0
    ensures Astray(w.mem, d, va) ==> PaddrOf(w.mem, d, va) == Offset(va) > 0
  {
    IndicesAddress(va);
    if VaMapped(w.mem, d, va) {
      VaOwner(w, d, va);
    } else {
      NotMapped(w, d, va);
    }
  }

  // An address that is not mapped, behind the start of a page of a slot that has a table
  predicate Astray(m: Mem, d: nat, va: Word) {
    HasTable(m, d, PdeIndex(va)) && !VaMapped(m, d, va) && Offset(va) != 0
  }

  lemma NotMapped(w: World, d: nat, va: Word)
    requires Inv(w) && IsDirectory(w, d) && 0x8000_0000 <= va && !VaMapped(w.mem, d, va)
    ensures Pte(w.mem, d, PdeIndex(va), PteIndex(va)) == 0 && VaFrame(w.mem, d, va) == 0
  {
    IndicesAddress(va);
    assert IsRoot(w, d);
    if Mapped(w.mem, d, PdeIndex(va), PteIndex(va)) {
      PageOwner(w, d, PdeIndex(va), PteIndex(va));
    }
  }

  method GetPaddr(mm: MemoryManager, r: nat, va: Word) returns (pa: Word)
    requires mm.Valid() && IsRoot(mm.State(), r)
    ensures pa == PaddrOf(mm.State().mem, r, va)
  {
    IndicesAddress(va);
    var pde := mm.frames[r][PdeIndex(va)];
    if !Present(pde) {
      return 0;
    }
    if HasTable(mm.State().mem, r, PdeIndex(va)) {
      TableOwner(mm.State(), r, PdeIndex(va));
    }
    var pte := mm.frames[FrameNo(pde)][PteIndex(va)];
    return FrameNo(pte) * 4096 + Offset(va);
  }

  // Byte o of frame f is one of the n bytes that directory d has from va on.
  ghost predicate IsTarget(m: Mem, d: nat, va: nat, n: nat, f: nat, o: nat)
    requires va + n <= 0x1_0000_0000
  {
    exists k :: va <= k < va + n && VaFrame(m, d, k) == f && k % 4096 == o
  }

  // The request of one memory_copy_uvm_data: n bytes from address src of the space s in use, to address dst
  // of the user half of directory d. The source is mapped, and no source byte is a target byte. The target need
  // not be mapped; frame 0, which then may be hit, is not the kernel's directory.
  ghost predicate CopyRequested(w: World, s: nat, src: nat, d: nat, dst: nat, n: nat) {
    && Inv(w) && IsRoot(w, s) && IsDirectory(w, d) && (src != 0 || n == 0)
    && 0x8000_0000 <= dst && dst + n <= 0x1_0000_0000
    && RangeMapped(w.mem, s, src, n) && (RangeMapped(w.mem, d, dst, n) || 0 < w.kdir)
    && forall k :: src <= k < src + n ==> !IsTarget(w.mem, d, dst, n, VaFrame(w.mem, s, k), k % 4096)
  }

  // The byte that d now has at address k is the one that s had at the corresponding source address.
  ghost predicate ArrivedAt(m: Mem, m': Mem, s: nat, src: nat, d: nat, dst: nat, k: nat) {
    && dst <= k < 0x1_0000_0000 && src + (k - dst) < 0x1_0000_0000
    && VaMapped(m', d, k) && VaMapped(m, s, src + (k - dst))
    && VaByte(m', d, k) == VaByte(m, s, src + (k - dst))
  }

  // Read through d, the n bytes from dst on are those that s had from src on.
  ghost predicate Arrived(m: Mem, m': Mem, s: nat, src: nat, d: nat, dst: nat, n: nat) {
    dst + n <= 0x1_0000_0000 && forall k :: dst <= k < dst + n ==> ArrivedAt(m, m', s, src, d, dst, k)
  }

  // No other byte of memory changed.
  ghost predicate RestSame(m: Mem, m': Mem, d: nat, dst: nat, n: nat)
    requires dst + n <= 0x1_0000_0000
  {
    |m'| == |m| &&
    forall f: nat, o: nat :: f < |m| && o < 4096 && !IsTarget(m, d, dst, n, f, o) ==>
        FrameByte(m'[f], o) == FrameByte(m[f], o)
  }

  ghost predicate UvmCopied(m: Mem, m': Mem, s: nat, src: nat, d: nat, dst: nat, n: nat) {
    Arrived(m, m', s, src, d, dst, n) && RestSame(m, m', d, dst, n)
  }

  // m' differs from w.mem in user pages of d only.
  ghost predicate OnlyPagesOf(w: World, m': Mem, d: nat) {
    |m'| == |w.mem| && forall f :: 0 <= f < |m'| && m'[f] != w.mem[f] ==>
        f in w.owner && w.owner[f].Page? && w.owner[f].root == d
  }

  // ---- What arrives where ----

  // The byte for address k of d is in the frame that the tables of d name for it: frame 0 if there is none.
  ghost predicate LandedAt(m: Mem, m': Mem, s: nat, src: nat, d: nat, dst: nat, k: nat) {
    && dst <= k < 0x1_0000_0000 && src + (k - dst) < 0x1_0000_0000
    && VaMapped(m, s, src + (k - dst)) && VaFrame(m, d, k) < |m'|
    && FrameByte(m'[VaFrame(m, d, k)], k % 4096) == VaByte(m, s, src + (k - dst))
  }

  ghost predicate Landed(m: Mem, m': Mem, s: nat, src: nat, d: nat, dst: nat, n: nat) {
    dst + n <= 0x1_0000_0000 && forall k :: dst <= k < dst + n ==> LandedAt(m, m', s, src, d, dst, k)
  }

  // A turn of the loop starts at the first address of the target and at each page after it.
  predicate TurnAt(dst: nat, k: nat) {
    k == dst || (dst < k && k % 4096 == 0)
  }

  // memory_copy_uvm_data copied the first done of size bytes: it stops at the first turn for whose address
  // memory_get_paddr answers 0.
  ghost predicate CopyOutcome(m: Mem, m': Mem, s: nat, src: nat, d: nat, dst: nat, size: nat, done: nat) {
    && done <= size && dst + size <= 0x1_0000_0000
    && (forall k :: dst <= k < dst + done && TurnAt(dst, k) ==> PaddrOf(m, d, k) != 0)
    && (done < size ==> TurnAt(dst, dst + done) && PaddrOf(m, d, dst + done) == 0)
    && Landed(m, m', s, src, d, dst, done) && RestSame(m, m', d, dst, done)
  }

  // m' differs from w.mem in user pages of d and in frame 0 only.
  ghost predicate OnlyCopied(w: World, m': Mem, d: nat) {
    && |m'| == |w.mem|
    && forall f :: 0 <= f < |m'| && m'[f] != w.mem[f] ==>
         (f == 0 && 0 < w.kdir) || (f in w.owner && w.owner[f].Page? && w.owner[f].root == d)
  }

  // Address k is one that the copy writes for: mapped, or in the first page and then leading to frame 0.
  ghost predicate Hit(w: World, d: nat, dst: nat, k: nat) {
    && 0x8000_0000 <= k < 0x1_0000_0000
    && (VaMapped(w.mem, d, k) || (VaFrame(w.mem, d, k) == 0 && k / 4096 == dst / 4096))
  }

  lemma HitsDiffer(w: World, d: nat, dst: nat, k: nat, k': nat)
    requires Inv(w) && IsDirectory(w, d) && Hit(w, d, dst, k) && Hit(w, d, dst, k')
    requires VaFrame(w.mem, d, k) == VaFrame(w.mem, d, k') && k % 4096 == k' % 4096
    ensures k == k'
  {
    hide VaMapped, VaFrame;
    if VaMapped(w.mem, d, k) {
      VaOwner(w, d, k);
    }
    if VaMapped(w.mem, d, k') {
      VaOwner(w, d, k');
    }
    if VaMapped(w.mem, d, k) && VaMapped(w.mem, d, k') {
      VaInjective(w, d, k, k');
    }
  }

  // The addresses of one page lie next to each other in one frame.
  lemma SamePage(m: Mem, r: nat, va: nat, k: nat)
    requires va % 4096 + k < 4096 && va + k < 0x1_0000_0000
    ensures VaFrame(m, r, va + k) == VaFrame(m, r, va) && (va + k) % 4096 == va % 4096 + k
    ensures VaMapped(m, r, va + k) == VaMapped(m, r, va) && (va + k) / 4096 == va / 4096
  {
    assert (va + k) / 4096 == va / 4096;
    assert (va + k) / 4096 / 1024 == va / 4096 / 1024;
    assert PdeIndex(va + k) == (va + k) / 4096 / 1024 && PdeIndex(va) == va / 4096 / 1024;
  }

  // How many bytes the next turn of memory_copy_uvm_data copies.
  function Chunk(dst: nat, left: nat): nat {
    var room := 4096 - dst % 4096;
    if room > left then left else room
  }

  // The world w with memory m, in which only user pages of d and frame 0 changed, translates as w does.
  lemma Reaches(w: World, m: Mem, d: nat, r: nat, va: Word)
    requires Inv(w) && OnlyCopied(w, m, d) && IsRoot(w, r)
    ensures VaFrame(m, r, va) == VaFrame(w.mem, r, va) && VaMapped(m, r, va) == VaMapped(w.mem, r, va)
    ensures PaddrOf(m, r, va) == PaddrOf(w.mem, r, va)
  {
    IndicesAddress(va);
    DataWriteKeeps(w, m);
  }

  lemma PagesReach(w: World, m: Mem, d: nat, r: nat, va: Word)
    requires Inv(w) && OnlyPagesOf(w, m, d) && IsRoot(w, r)
    ensures VaFrame(m, r, va) == VaFrame(w.mem, r, va) && VaMapped(m, r, va) == VaMapped(w.mem, r, va)
  {
    Reaches(w, m, d, r, va);
  }

  // The turn for the bytes from n on, in world w with memory m
  ghost predicate Turn(w: World, m: Mem, s: nat, src: nat, d: nat, dst: nat, size: nat, n: nat) {
    && CopyRequested(w, s, src, d, dst, size) && n < size && OnlyCopied(w, m, d)
    && TurnAt(dst, dst + n) && PaddrOf(w.mem, d, dst + n) != 0
    && forall k :: dst <= k < dst + n ==> Hit(w, d, dst, k)
  }

  // Where it writes: a page of d, or frame 0 at the first turn.
  lemma TurnFrame(w: World, m: Mem, s: nat, src: nat, d: nat, dst: nat, size: nat, n: nat)
    requires Turn(w, m, s, src, d, dst, size, n)
    ensures var p := VaFrame(w.mem, d, dst + n);
            && p < |w.mem| && IsData(w, p) && PaddrOf(w.mem, d, dst + n) == p * 4096 + (dst + n) % 4096
            && Hit(w, d, dst, dst + n) && (p == 0 ==> 0 < w.kdir)
            && (p != 0 ==> p in w.owner && w.owner[p].Page? && w.owner[p].root == d)
  {
    hide VaFrame, VaMapped;
    if VaMapped(w.mem, d, dst + n) {
      VaOwner(w, d, dst + n);
      PaddrTranslates(w.mem, d, dst + n);
    } else {
      NotMapped(w, d, dst + n);
      BlankPaddr(w.mem, d, dst + n);
    }
  }

  lemma BlankPaddr(m: Mem, d: nat, va: Word)
    requires Pte(m, d, PdeIndex(va), PteIndex(va)) == 0
    ensures PaddrOf(m, d, va) == if HasTable(m, d, PdeIndex(va)) then va % 4096 else 0
  {
  }

  lemma TurnHits(w: World, m: Mem, s: nat, src: nat, d: nat, dst: nat, size: nat, n: nat, k: nat)
    requires Turn(w, m, s, src, d, dst, size, n) && dst + n <= k < dst + n + Chunk(dst + n, size - n)
    ensures Hit(w, d, dst, k)
  {
    TurnFrame(w, m, s, src, d, dst, size, n);
    hide VaFrame, VaMapped, Inv, PaddrOf;
    SamePage(w.mem, d, dst + n, k - (dst + n));
  }

  // What the copy of the next chunk, the bytes from n on, needs.
  lemma ChunkReady(w: World, m: Mem, s: nat, src: nat, d: nat, dst: nat, size: nat, n: nat)
    requires Turn(w, m, s, src, d, dst, size, n)
    ensures dst + n < 0x1_0000_0000 && src + n < 0x1_0000_0000
    ensures var c, p := Chunk(dst + n, size - n), VaFrame(w.mem, d, dst + n);
            && VaFrame(m, d, dst + n) == p
            && 0 < c <= size - n && (dst + n) % 4096 + c <= 4096
            && IsData(w, p) && p < |m|
            && RangeMapped(m, s, src + n, c) && RangeAvoids(m, s, src + n, c, p, (dst + n) % 4096, c)
  {
    TurnFrame(w, m, s, src, d, dst, size, n);
    hide Mapped, PageOf, Inv, PaddrOf, IsData;
    var c, p := Chunk(dst + n, size - n), VaFrame(w.mem, d, dst + n);
    Reaches(w, m, d, d, dst + n);
    forall k | src + n <= k < src + n + c
      ensures VaMapped(m, s, k) && !(VaFrame(m, s, k) == p && (dst + n) % 4096 <= k % 4096 < (dst + n) % 4096 + c)
    {
      assert VaMapped(w.mem, s, k);
      Reaches(w, m, d, s, k);
      if VaFrame(m, s, k) == p && (dst + n) % 4096 <= k % 4096 < (dst + n) % 4096 + c {
        ChunkIsTarget(w.mem, d, dst, size, n, c, k % 4096);
      }
    }
  }

  lemma ChunkIsTarget(m: Mem, d: nat, dst: nat, size: nat, n: nat, c: nat, o: nat)
    requires dst + size <= 0x1_0000_0000 && n + c <= size && (dst + n) % 4096 <= o < (dst + n) % 4096 + c <= 4096
    ensures IsTarget(m, d, dst, size, VaFrame(m, d, dst + n), o)
  {
    hide VaFrame, VaMapped;
    var q := o - (dst + n) % 4096;
    SamePage(m, d, dst + n, q);
    assert dst <= dst + n + q < dst + size;
  }

  // The next chunk, the c bytes from n on, arrived in its frame: that is now y.
  ghost predicate ChunkArrived(w: World, m: Mem, s: nat, src: nat, d: nat, dst: nat, size: nat, n: nat, c: nat,
      y: Frame) {
    && Turn(w, m, s, src, d, dst, size, n) && c == Chunk(dst + n, size - n)
    && Landed(w.mem, m, s, src, d, dst, n) && RestSame(w.mem, m, d, dst, n)
    && RangeMapped(m, s, src + n, c) && VaFrame(w.mem, d, dst + n) < |m|
    && BytesCopied(m, s, src + n, c, m[VaFrame(w.mem, d, dst + n)], y, (dst + n) % 4096)
  }

  lemma ChunkCopied(w: World, m: Mem, s: nat, src: nat, d: nat, dst: nat, size: nat, n: nat, c: nat, y: Frame)
    requires ChunkArrived(w, m, s, src, d, dst, size, n, c, y)
    ensures VaFrame(w.mem, d, dst + n) < |m|
    ensures Landed(w.mem, m[VaFrame(w.mem, d, dst + n) := y], s, src, d, dst, n + c)
    ensures RestSame(w.mem, m[VaFrame(w.mem, d, dst + n) := y], d, dst, n + c)
    ensures OnlyCopied(w, m[VaFrame(w.mem, d, dst + n) := y], d)
  {
    hide Inv, Mapped, PageOf, FrameByte, LandedAt, RestSame, BytesCopied, VaMapped, PaddrOf;
    var p := VaFrame(w.mem, d, dst + n);
    TurnFrame(w, m, s, src, d, dst, size, n);
    ChunkReady(w, m, s, src, d, dst, size, n);
    var m' := m[p := y];
    forall k | dst <= k < dst + n + c
      ensures LandedAt(w.mem, m', s, src, d, dst, k)
    {
      if k < dst + n {
        EarlierByte(w, m, s, src, d, dst, size, n, c, y, k);
      } else {
        ChunkByte(w, m, s, src, d, dst, size, n, c, y, k - dst - n);
      }
    }
    ChunkRest(w, m, s, src, d, dst, size, n, c, y);
  }

  // A byte that was copied before this chunk is not hit by it.
  lemma EarlierByte(w: World, m: Mem, s: nat, src: nat, d: nat, dst: nat, size: nat, n: nat, c: nat, y: Frame, k: nat)
    requires ChunkArrived(w, m, s, src, d, dst, size, n, c, y) && dst <= k < dst + n
    ensures LandedAt(w.mem, m[VaFrame(w.mem, d, dst + n) := y], s, src, d, dst, k)
  {
    hide Inv, Mapped, PageOf, RestSame, OnlyCopied, PaddrOf, VaMapped, VaFrame, FrameByte;
    assert LandedAt(w.mem, m, s, src, d, dst, k);
    if VaFrame(w.mem, d, k) == VaFrame(w.mem, d, dst + n) && (dst + n) % 4096 <= k % 4096 < (dst + n) % 4096 + c {
      var q := k % 4096 - (dst + n) % 4096;
      SamePage(w.mem, d, dst + n, q);
      TurnHits(w, m, s, src, d, dst, size, n, dst + n + q);
      HitsDiffer(w, d, dst, k, dst + n + q);
    }
  }

  // Byte q of the chunk.
  lemma ChunkByte(w: World, m: Mem, s: nat, src: nat, d: nat, dst: nat, size: nat, n: nat, c: nat, y: Frame, q: nat)
    requires ChunkArrived(w, m, s, src, d, dst, size, n, c, y) && q < c
    ensures LandedAt(w.mem, m[VaFrame(w.mem, d, dst + n) := y], s, src, d, dst, dst + n + q)
  {
    hide Inv, Mapped, PageOf, OnlyCopied, Landed, PaddrOf, Hit;
    var p := VaFrame(w.mem, d, dst + n);
    var k, x := dst + n + q, src + n + q;
    assert VaMapped(w.mem, s, x) && VaMapped(m, s, x);
    SamePage(w.mem, d, dst + n, q);
    Reaches(w, m, d, s, x);
    assert FrameByte(y, (dst + n) % 4096 + q) == VaByte(m, s, x);
    var f, o := VaFrame(w.mem, s, x), x % 4096;
    NotTarget(w.mem, d, dst, size, n, f, o);
    assert FrameByte(m[f], o) == FrameByte(w.mem[f], o);
  }

  lemma NotTarget(m: Mem, d: nat, dst: nat, size: nat, n: nat, f: nat, o: nat)
    requires dst + size <= 0x1_0000_0000 && n <= size && !IsTarget(m, d, dst, size, f, o)
    ensures !IsTarget(m, d, dst, n, f, o)
  {
  }

  lemma ChunkRest(w: World, m: Mem, s: nat, src: nat, d: nat, dst: nat, size: nat, n: nat, c: nat, y: Frame)
    requires ChunkArrived(w, m, s, src, d, dst, size, n, c, y)
    ensures VaFrame(w.mem, d, dst + n) < |m| && dst + n + c <= 0x1_0000_0000
    ensures RestSame(w.mem, m[VaFrame(w.mem, d, dst + n) := y], d, dst, n + c)
  {
    hide Inv, Mapped, PageOf, FrameByte, OnlyCopied, LandedAt, PaddrOf, Hit;
    var p := VaFrame(w.mem, d, dst + n);
    forall f: nat, o: nat | f < |m| && o < 4096 && !IsTarget(w.mem, d, dst, n + c, f, o)
      ensures FrameByte(m[p := y][f], o) == FrameByte(w.mem[f], o)
    {
      NotTarget(w.mem, d, dst, n + c, n, f, o);
      if f == p && (dst + n) % 4096 <= o < (dst + n) % 4096 + c {
        ChunkIsTarget(w.mem, d, dst, n + c, n, c, o);
      }
    }
  }

  // memory_copy_uvm_data, for any target in the user half. done is the number of bytes it has copied.
  method CopyUvmData(mm: MemoryManager, to: Word, d: nat, from: Word, size: Word) returns (err: int, ghost done: nat)
    requires mm.Valid() && CopyRequested(mm.State(), mm.cr3, from, d, to, size)
    modifies mm.frames
    ensures mm.Valid() && err == if done == size then 0 else -1
    ensures CopyOutcome(old(mm.State().mem), mm.State().mem, mm.cr3, from, d, to, size, done)
    ensures OnlyCopied(old(mm.State()), mm.State().mem, d)
    ensures mm.State() == old(mm.State()).(mem := mm.State().mem)
  {
    hide *;
    ghost var w := mm.State();
    CopyBegins(w, mm.cr3, from, d, to, size);
    var n: int := 0;
    while n < size
      invariant 0 <= n <= size && mm.Valid() && mm.State() == w.(mem := mm.State().mem)
      invariant CopyState(w, mm.State().mem, mm.cr3, from, d, to, size, n)
    {
      var c := CopyChunk(mm, w, to, d, from, size, n);
      if c == 0 {
        return -1, n;
      }
      n := n + c;
    }
    CopyEnds(w, mm.State().mem, mm.cr3, from, d, to, size);
    return 0, size;
  }

  // The copy on its way, with n bytes copied
  ghost predicate CopyState(w: World, m: Mem, s: nat, src: nat, d: nat, dst: nat, size: nat, n: nat) {
    && CopyRequested(w, s, src, d, dst, size) && n <= size
    && (n < size ==> TurnAt(dst, dst + n))
    && (forall k :: dst <= k < dst + n ==> Hit(w, d, dst, k))
    && (forall k :: dst <= k < dst + n && TurnAt(dst, k) ==> PaddrOf(w.mem, d, k) != 0)
    && Landed(w.mem, m, s, src, d, dst, n) && RestSame(w.mem, m, d, dst, n)
    && OnlyCopied(w, m, d)
  }

  lemma CopyBegins(w: World, s: nat, from: Word, d: nat, to: Word, size: Word)
    requires CopyRequested(w, s, from, d, to, size)
    ensures CopyState(w, w.mem, s, from, d, to, size, 0)
  {
  }

  lemma CopyEnds(w: World, m: Mem, s: nat, src: nat, d: nat, dst: nat, size: nat)
    requires CopyState(w, m, s, src, d, dst, size, size)
    ensures CopyOutcome(w.mem, m, s, src, d, dst, size, size) && OnlyCopied(w, m, d)
  {
  }

  // One turn of the loop of memory_copy_uvm_data: the number of bytes copied, or 0 for an address that has
  // no translation.
  method CopyChunk(mm: MemoryManager, ghost w: World, to: Word, d: nat, from: Word, size: Word, n: nat) returns (c: int)
    requires mm.Valid() && mm.State() == w.(mem := mm.State().mem)
    requires CopyState(w, mm.State().mem, mm.cr3, from, d, to, size, n) && n < size
    modifies mm.frames
    ensures mm.Valid() && mm.State() == w.(mem := mm.State().mem)
    ensures c >= 0 && n + c <= size && CopyState(w, mm.State().mem, mm.cr3, from, d, to, size, n + c)
    ensures c == 0 ==>
      CopyOutcome(w.mem, mm.State().mem, mm.cr3, from, d, to, size, n) && OnlyCopied(w, mm.State().mem, d)
  {
    hide MemoryManager.Valid, CopyState, CopyOutcome, OnlyCopied, PaddrOf, RangeMapped, RangeAvoids, BytesCopied,
        IsData, Chunk;
    ghost var m, s := mm.State().mem, mm.cr3;
    CopyPlaces(w, mm.State(), s, from, d, to, size, n);
    var pa := GetPaddr(mm, d, to + n);
    if pa == 0 {
      CopyStops(w, m, s, from, d, to, size, n);
      return 0;
    }
    TurnReady(w, mm.State(), s, from, d, to, size, n, pa);
    var offset := pa % 4096;
    c := 4096 - offset;
    if c > size - n {
      c := size - n;
    }
    mm.Kmemcpy(pa / 4096, offset, from + n, c);
    TurnDone(w, m, mm.State().mem, s, from, d, to, size, n, c, pa);
  }

  lemma CopyPlaces(w: World, w1: World, s: nat, src: nat, d: nat, dst: nat, size: nat, n: nat)
    requires CopyState(w, w1.mem, s, src, d, dst, size, n) && n < size && w1 == w.(mem := w1.mem)
    ensures IsRoot(w1, d) && IsRoot(w1, s) && dst + n < 0x1_0000_0000 && src + n < 0x1_0000_0000
    ensures PaddrOf(w1.mem, d, dst + n) == PaddrOf(w.mem, d, dst + n)
  {
    hide Inv, Landed, RestSame, PaddrOf, Hit;
    Reaches(w, w1.mem, d, d, dst + n);
  }

  lemma CopyStops(w: World, m: Mem, s: nat, src: nat, d: nat, dst: nat, size: nat, n: nat)
    requires CopyState(w, m, s, src, d, dst, size, n) && n < size && dst + n < 0x1_0000_0000 &&
        PaddrOf(w.mem, d, dst + n) == 0
    ensures CopyOutcome(w.mem, m, s, src, d, dst, size, n) && OnlyCopied(w, m, d)
  {
    hide Inv, Landed, RestSame, PaddrOf, OnlyCopied, Hit;
  }

  // What the copying of one chunk to physical address pa needs
  lemma TurnReady(w: World, w1: World, s: nat, src: nat, d: nat, dst: nat, size: nat, n: nat, pa: nat)
    requires CopyState(w, w1.mem, s, src, d, dst, size, n) && n < size && w1 == w.(mem := w1.mem)
    requires dst + n < 0x1_0000_0000 && pa == PaddrOf(w.mem, d, dst + n) != 0
    ensures var c := Chunk(dst + n, size - n);
            && c == (if 4096 - pa % 4096 > size - n then size - n else 4096 - pa % 4096) && c > 0
            && src + n < 0x1_0000_0000 && src + n > 0
            && IsData(w1, pa / 4096) && pa / 4096 < |w1.mem| && pa % 4096 + c <= 4096
            && RangeMapped(w1.mem, s, src + n, c) && RangeAvoids(w1.mem, s, src + n, c, pa / 4096, pa % 4096, c)
  {
    hide Inv, Landed, RestSame, PaddrOf, Hit, OnlyCopied, RangeMapped, RangeAvoids, IsData;
    var p, o := VaFrame(w.mem, d, dst + n), (dst + n) % 4096;
    assert Turn(w, w1.mem, s, src, d, dst, size, n);
    TurnFrame(w, w1.mem, s, src, d, dst, size, n);
    ChunkReady(w, w1.mem, s, src, d, dst, size, n);
    SplitAt4096(p, o);
    assert pa % 4096 == o;
    DataStays(w, w1, p);
  }

  lemma DataStays(w: World, w1: World, p: nat)
    requires w1 == w.(mem := w1.mem)
    ensures IsData(w1, p) == IsData(w, p)
  {
  }

  lemma TurnDone(w: World, m: Mem, m': Mem, s: nat, src: nat, d: nat, dst: nat, size: nat, n: nat, c: nat, pa: nat)
    requires CopyState(w, m, s, src, d, dst, size, n) && n < size && c == Chunk(dst + n, size - n)
    requires dst + n < 0x1_0000_0000 && pa == PaddrOf(w.mem, d, dst + n) != 0 && src + n != 0
    requires pa / 4096 < |m| && |m'| == |m| && m' == m[pa / 4096 := m'[pa / 4096]] && RangeMapped(m, s, src + n, c)
    requires BytesCopied(m, s, src + n, c, m[pa / 4096], m'[pa / 4096], pa % 4096)
    ensures c > 0 && n + c <= size && CopyState(w, m', s, src, d, dst, size, n + c)
  {
    hide Inv, Landed, RestSame, PaddrOf, Hit, OnlyCopied, RangeMapped, BytesCopied, CopyRequested;
    var p, o := VaFrame(w.mem, d, dst + n), (dst + n) % 4096;
    assert Turn(w, m, s, src, d, dst, size, n);
    TurnFrame(w, m, s, src, d, dst, size, n);
    SplitAt4096(p, o);
    assert pa % 4096 == o && pa / 4096 == p;
    ChunkCopied(w, m, s, src, d, dst, size, n, c, m'[p]);
    TurnAfter(w, m, s, src, d, dst, size, n);
  }

  // The turns up to the next one
  lemma TurnAfter(w: World, m: Mem, s: nat, src: nat, d: nat, dst: nat, size: nat, n: nat)
    requires Turn(w, m, s, src, d, dst, size, n)
    ensures var c := Chunk(dst + n, size - n);
            && 0 < c && n + c <= size && (n + c < size ==> TurnAt(dst, dst + n + c))
            && (forall k :: dst + n <= k < dst + n + c ==> Hit(w, d, dst, k))
            && (forall k :: dst + n < k < dst + n + c ==> !TurnAt(dst, k))
  {
    hide Inv, PaddrOf, Hit, CopyRequested;
    var c := Chunk(dst + n, size - n);
    forall k | dst + n <= k < dst + n + c
      ensures Hit(w, d, dst, k)
    {
      TurnHits(w, m, s, src, d, dst, size, n, k);
    }
  }

  // ---- When the copy does what it is for ----

  // With the whole target mapped it never stops, and the bytes arrive.
  lemma CopyToMapped(w: World, m': Mem, s: nat, src: nat, d: nat, dst: nat, size: nat, done: nat)
    requires CopyRequested(w, s, src, d, dst, size) && RangeMapped(w.mem, d, dst, size)
    requires CopyOutcome(w.mem, m', s, src, d, dst, size, done) && OnlyCopied(w, m', d)
    ensures done == size && UvmCopied(w.mem, m', s, src, d, dst, size) && OnlyPagesOf(w, m', d)
  {
    hide Inv, VaFrame, VaMapped, FrameByte, PaddrOf;
    if done < size {
      assert VaMapped(w.mem, d, dst + done);
      MappedPaddr(w, d, dst + done);
    }
    forall k | dst <= k < dst + size
      ensures ArrivedAt(w.mem, m', s, src, d, dst, k)
    {
      assert LandedAt(w.mem, m', s, src, d, dst, k) && VaMapped(w.mem, d, k);
      Reaches(w, m', d, d, k);
      ByteThrough(m', d, k);
    }
    FrameZeroSame(w, m', s, src, d, dst, size);
  }

  lemma ByteThrough(m: Mem, d: nat, k: Word)
    requires VaMapped(m, d, k)
    ensures VaFrame(m, d, k) < |m| && VaByte(m, d, k) == FrameByte(m[VaFrame(m, d, k)], k % 4096)
  {
  }

  lemma MappedPaddr(w: World, d: nat, va: Word)
    requires Inv(w) && IsDirectory(w, d) && 0x8000_0000 <= va && VaMapped(w.mem, d, va)
    ensures PaddrOf(w.mem, d, va) != 0 && VaFrame(w.mem, d, va) != 0
  {
    VaOwner(w, d, va);
    PaddrTranslates(w.mem, d, va);
  }

  lemma FrameZeroSame(w: World, m': Mem, s: nat, src: nat, d: nat, dst: nat, size: nat)
    requires CopyRequested(w, s, src, d, dst, size) && RangeMapped(w.mem, d, dst, size)
    requires RestSame(w.mem, m', d, dst, size) && OnlyCopied(w, m', d)
    ensures OnlyPagesOf(w, m', d)
  {
    hide VaFrame, VaMapped, FrameByte, Inv;
    if |w.mem| > 0 {
      forall o: nat | o < 4096
        ensures FrameByte(m'[0], o) == FrameByte(w.mem[0], o)
      {
        if IsTarget(w.mem, d, dst, size, 0, o) {
          var k :| dst <= k < dst + size && VaFrame(w.mem, d, k) == 0 && k % 4096 == o;
          assert VaMapped(w.mem, d, k);
          MappedPaddr(w, d, k);
        }
      }
      SameBytesSameFrame(m'[0], w.mem[0]);
    }
  }

  // Exactly when it reports success: every address is mapped, but for the first page, of which it is enough
  // that its slot has a table and that the target does not start at its first byte.
  lemma CopySucceedsIff(w: World, m': Mem, s: nat, src: nat, d: nat, dst: nat, size: nat, done: nat)
    requires CopyRequested(w, s, src, d, dst, size) && CopyOutcome(w.mem, m', s, src, d, dst, size, done)
    ensures done == size <==>
            forall k :: dst <= k < dst + size ==>
              VaMapped(w.mem, d, k) || (k / 4096 == dst / 4096 && Astray(w.mem, d, dst))
  {
    hide Inv, VaMapped, VaFrame, PaddrOf, Landed, RestSame;
    if done == size {
      forall k | dst <= k < dst + size
        ensures VaMapped(w.mem, d, k) || (k / 4096 == dst / 4096 && Astray(w.mem, d, dst))
      {
        var t := if k / 4096 == dst / 4096 then dst else k / 4096 * 4096;
        assert TurnAt(dst, t) && k / 4096 == t / 4096;
        SamePage(w.mem, d, t, k - t);
        TurnReaches(w, d, t);
      }
    } else {
      TurnReaches(w, d, dst + done);
      assert dst <= dst + done < dst + size;
    }
  }

  // memory_get_paddr answers other than 0.
  lemma TurnReaches(w: World, d: nat, va: Word)
    requires Inv(w) && IsDirectory(w, d) && 0x8000_0000 <= va
    ensures PaddrOf(w.mem, d, va) != 0 <==> VaMapped(w.mem, d, va) || Astray(w.mem, d, va)
    ensures Astray(w.mem, d, va) ==> va % 4096 != 0
  {
    if VaMapped(w.mem, d, va) {
      MappedPaddr(w, d, va);
    } else {
      NotMapped(w, d, va);
      BlankPaddr(w.mem, d, va);
    }
  }

  // What becomes of a target whose first page is not mapped: its bytes overwrite frame 0 at their offsets in the
  // page, the new space does not get them, and the copy goes on.
  lemma CopyGoesAstray(w: World, m': Mem, s: nat, src: nat, d: nat, dst: nat, size: nat, done: nat)
    requires CopyRequested(w, s, src, d, dst, size) && CopyOutcome(w.mem, m', s, src, d, dst, size, done)
    requires OnlyCopied(w, m', d) && size > 0 && Astray(w.mem, d, dst)
    ensures done >= Chunk(dst, size) > 0 && |m'| > 0
    ensures forall k :: dst <= k < dst + Chunk(dst, size) ==>
              && !VaMapped(m', d, k) && VaMapped(w.mem, s, src + (k - dst))
              && FrameByte(m'[0], k % 4096) == VaByte(w.mem, s, src + (k - dst))
  {
    hide Inv, VaMapped, VaFrame, PaddrOf, RestSame, FrameByte, VaByte;
    TurnReaches(w, d, dst);
    NotMapped(w, d, dst);
    assert TurnAt(dst, dst + done) && done < size ==> done > 0;
    forall k | dst <= k < dst + Chunk(dst, size)
      ensures k < dst + done && !VaMapped(m', d, k) && VaMapped(w.mem, s, src + (k - dst))
      ensures |m'| > 0 && FrameByte(m'[0], k % 4096) == VaByte(w.mem, s, src + (k - dst))
    {
      SamePage(w.mem, d, dst, k - dst);
      Reaches(w, m', d, d, k);
      assert LandedAt(w.mem, m', s, src, d, dst, k);
    }
  }
}
