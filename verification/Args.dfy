// Passing the arguments of execve to a new address space: copy_args of source/kernel/core/task.c.
//
// The block at to is: an unused word, argc, the address of the argument table, the table, the strings.
module Args {
  import opened Mmu
  import opened Paging
  import opened Spaces
  import opened Bytes
  import opened Access
  import opened Memory
  import opened Allocator
  import opened UserCopy

  // A NUL-terminated string of len characters at address a of space r.
  ghost predicate IsString(m: Mem, r: nat, a: nat, len: nat) {
    && RangeMapped(m, r, a, len + 1)
    && VaByte(m, r, a + len) == 0
    && forall k :: a <= k < a + len ==> VaByte(m, r, k) != 0
  }

  ghost predicate HoldsWord(m: Mem, r: nat, a: nat, v: Word) {
    && RangeMapped(m, r, a, 4)
    && WordOf(VaByte(m, r, a), VaByte(m, r, a + 1), VaByte(m, r, a + 2), VaByte(m, r, a + 3)) == v
  }

  // Where string k goes, counted from to: behind the table of n pointers and the strings before it.
  function StringOffset(n: nat, lens: seq<nat>, k: nat): nat
    requires k <= |lens|
  {
    if k == 0 then 12 + 4 * n else StringOffset(n, lens, k - 1) + lens[k - 1] + 1
  }

  lemma {:induction false} OffsetsRise(n: nat, lens: seq<nat>, k: nat, k': nat)
    requires k <= k' <= |lens|
    ensures 12 + 4 * n <= StringOffset(n, lens, k) <= StringOffset(n, lens, k')
    ensures k < k' ==> StringOffset(n, lens, k) + lens[k] + 1 <= StringOffset(n, lens, k')
    decreases k'
  {
    if k < k' {
      OffsetsRise(n, lens, k, k' - 1);
    } else if 0 < k {
      OffsetsRise(n, lens, k - 1, k - 1);
    }
  }

  // ---- Writes that are seen through d in one range of addresses only ----

  // Seen through d, memory changed in the n addresses from dst on at most.
  ghost predicate OnlyRange(m: Mem, m': Mem, d: nat, dst: nat, n: nat) {
    forall va :: 0x8000_0000 <= va < 0x1_0000_0000 && VaMapped(m, d, va) && !(dst <= va < dst + n) ==>
      VaMapped(m', d, va) && VaByte(m', d, va) == VaByte(m, d, va)
  }

  lemma CopyOnlyRange(w: World, m': Mem, s: nat, src: nat, d: nat, dst: nat, n: nat)
    requires CopyRequested(w, s, src, d, dst, n) && RangeMapped(w.mem, d, dst, n)
    requires UvmCopied(w.mem, m', s, src, d, dst, n) && OnlyPagesOf(w, m', d)
    ensures OnlyRange(w.mem, m', d, dst, n)
  {
    hide Inv, Mapped, PageOf, FrameByte, OnlyPagesOf, Arrived;
    forall va | 0x8000_0000 <= va < 0x1_0000_0000 && VaMapped(w.mem, d, va) && !(dst <= va < dst + n)
      ensures VaMapped(m', d, va) && VaByte(m', d, va) == VaByte(w.mem, d, va)
    {
      PagesReach(w, m', d, d, va);
      if IsTarget(w.mem, d, dst, n, VaFrame(w.mem, d, va), va % 4096) {
        var k :| dst <= k < dst + n && VaFrame(w.mem, d, k) == VaFrame(w.mem, d, va) && k % 4096 == va % 4096;
        VaInjective(w, d, k, va);
      }
    }
  }

  lemma StringKept(m0: Mem, m: Mem, m': Mem, s: nat, src: nat, d: nat, a: nat, len: nat, dst: nat, n: nat)
    requires Arrived(m0, m, s, src, d, a, len) && OnlyRange(m, m', d, dst, n)
    requires 0x8000_0000 <= a && (a + len <= dst || dst + n <= a)
    ensures Arrived(m0, m', s, src, d, a, len)
  {
    hide VaMapped, VaByte;
    forall k | a <= k < a + len
      ensures ArrivedAt(m0, m', s, src, d, a, k)
    {
      assert ArrivedAt(m0, m, s, src, d, a, k);
    }
  }

  lemma WordKept(m: Mem, m': Mem, d: nat, a: nat, v: Word, dst: nat, n: nat)
    requires HoldsWord(m, d, a, v) && OnlyRange(m, m', d, dst, n)
    requires 0x8000_0000 <= a && (a + 4 <= dst || dst + n <= a)
    ensures HoldsWord(m', d, a, v)
  {
    hide VaMapped, VaByte;
    assert VaMapped(m, d, a) && VaMapped(m, d, a + 1) && VaMapped(m, d, a + 2) && VaMapped(m, d, a + 3);
  }

  lemma WordBoundary(va: nat)
    requires va % 4 == 0
    ensures va % 4096 / 4 * 4 == va % 4096
  {
    var q := va / 4096;
    assert va == (q * 1024) * 4 + va % 4096;
  }

  // The four bytes of a word of a frame.
  lemma WordBytes(x: Frame, k: nat)
    requires k < 1024
    ensures WordOf(FrameByte(x, 4 * k), FrameByte(x, 4 * k + 1), FrameByte(x, 4 * k + 2), FrameByte(x, 4 * k + 3)) == x[k]
  {
    WordOfBytes(x[k]);
  }

  // The memory m with word v stored at address va of space d, a word boundary.
  function StoreAt(m: Mem, d: nat, va: Word, v: Word): Mem
    requires VaMapped(m, d, va)
  {
    var p := VaFrame(m, d, va);
    m[p := m[p][va % 4096 / 4 := v]]
  }

  lemma WordStored(w: World, d: nat, va: nat, v: Word)
    requires Inv(w) && IsDirectory(w, d) && 0x8000_0000 <= va && va % 4 == 0 && va + 4 <= 0x1_0000_0000
    requires VaMapped(w.mem, d, va)
    ensures OnlyPagesOf(w, StoreAt(w.mem, d, va, v), d)
    ensures HoldsWord(StoreAt(w.mem, d, va, v), d, va, v)
    ensures OnlyRange(w.mem, StoreAt(w.mem, d, va, v), d, va, 4)
  {
    hide Inv, Mapped, PageOf, VaByte, OnlyPagesOf, HoldsWord;
    var m' := StoreAt(w.mem, d, va, v);
    WordStoredPages(w, d, va, v);
    forall k | 0x8000_0000 <= k < 0x1_0000_0000 && VaMapped(w.mem, d, k) && !(va <= k < va + 4)
      ensures VaMapped(m', d, k) && VaByte(m', d, k) == VaByte(w.mem, d, k)
    {
      WordStoredElsewhere(w, d, va, v, k);
    }
    WordStoredHere(w, d, va, v);
  }

  lemma WordStoredPages(w: World, d: nat, va: nat, v: Word)
    requires Inv(w) && IsDirectory(w, d) && 0x8000_0000 <= va < 0x1_0000_0000
    requires VaMapped(w.mem, d, va)
    ensures OnlyPagesOf(w, StoreAt(w.mem, d, va, v), d)
  {
    VaOwner(w, d, va);
  }

  lemma WordStoredHere(w: World, d: nat, va: nat, v: Word)
    requires Inv(w) && IsDirectory(w, d) && 0x8000_0000 <= va && va % 4 == 0 && va + 4 <= 0x1_0000_0000
    requires VaMapped(w.mem, d, va) && OnlyPagesOf(w, StoreAt(w.mem, d, va, v), d)
    ensures HoldsWord(StoreAt(w.mem, d, va, v), d, va, v)
  {
    hide Inv, Mapped, PageOf, OnlyPagesOf, HoldsWord;
    WordThrough(w, StoreAt(w.mem, d, va, v), d, va);
  }

  lemma WordPlace(w: World, m': Mem, d: nat, va: nat, q: nat)
    requires Inv(w) && IsDirectory(w, d) && va % 4 == 0 && va + 4 <= 0x1_0000_0000 && q < 4
    requires VaMapped(w.mem, d, va) && OnlyPagesOf(w, m', d)
    ensures VaMapped(m', d, va + q) && VaFrame(m', d, va + q) == VaFrame(w.mem, d, va) && VaFrame(w.mem, d, va) < |m'|
    ensures (va + q) % 4096 == va % 4096 / 4 * 4 + q
  {
    hide Inv, Mapped, PageOf;
    SamePage(w.mem, d, va, q);
    PagesReach(w, m', d, d, va + q);
    WordBoundary(va);
  }

  lemma WordStoredElsewhere(w: World, d: nat, va: nat, v: Word, k: nat)
    requires Inv(w) && IsDirectory(w, d) && 0x8000_0000 <= va && va % 4 == 0 && va + 4 <= 0x1_0000_0000
    requires VaMapped(w.mem, d, va) && OnlyPagesOf(w, StoreAt(w.mem, d, va, v), d)
    requires 0x8000_0000 <= k < 0x1_0000_0000 && VaMapped(w.mem, d, k) && !(va <= k < va + 4)
    ensures VaMapped(StoreAt(w.mem, d, va, v), d, k)
    ensures VaByte(StoreAt(w.mem, d, va, v), d, k) == VaByte(w.mem, d, k)
  {
    hide Inv, Mapped, PageOf, OnlyPagesOf;
    PagesReach(w, StoreAt(w.mem, d, va, v), d, d, k);
    if VaFrame(w.mem, d, k) == VaFrame(w.mem, d, va) && k % 4096 / 4 == va % 4096 / 4 {
      var q := k % 4096 - va % 4096;
      WordBoundary(va);
      SamePage(w.mem, d, va, q);
      VaInjective(w, d, k, va + q);
    }
  }

  // ---- copy_args ----
  // A call of copy_args(to, d, argc, argv) while space s is in use: argv is a table of argc pointers ptrs to
  // strings of the lengths lens. The local task_args_t lies on the kernel stack, at word x of frame stack.
  datatype ArgsCall = ArgsCall(s: nat, d: nat, to: nat, argv: nat, ptrs: seq<Word>, lens: seq<nat>, stack: nat, x: nat) {
    function Local(): nat {
      stack * 4096 + 4 * x
    }

    // Where string k goes.
    function Dest(k: nat): nat
      requires k <= |lens|
    {
      to + StringOffset(|lens|, lens, k)
    }

    function Slot(k: nat): nat {
      to + 12 + 4 * k
    }
  }

  // m differs from w.mem in user pages of d and in frame stack only.
  ghost predicate OnlyArgs(w: World, m: Mem, d: nat, stack: nat) {
    |m| == |w.mem| &&
    forall f :: 0 <= f < |m| && m[f] != w.mem[f] ==>
      f == stack || (f in w.owner && w.owner[f].Page? && w.owner[f].root == d)
  }

  // The n bytes that space s has from a on lie neither on a page of d nor in frame stack.
  ghost predicate SourceSafe(w: World, s: nat, a: nat, n: nat, d: nat, stack: nat) {
    && RangeMapped(w.mem, s, a, n)
    && forall k :: a <= k < a + n ==>
         VaFrame(w.mem, s, k) != stack
         && !(VaFrame(w.mem, s, k) in w.owner && w.owner[VaFrame(w.mem, s, k)].Page? &&
             w.owner[VaFrame(w.mem, s, k)].root == d)
  }

  // Entry i of the pointer table lies as far behind the first page of the block in memory as in the address space.
  // The table is written through the physical address of its first entry.
  predicate EntryTogether(m: Mem, c: ArgsCall, i: nat) {
    && c.Slot(i) < 0x1_0000_0000 && c.to < 0x1_0000_0000
    && VaFrame(m, c.d, c.Slot(i)) == VaFrame(m, c.d, c.to) + (12 + 4 * i) / 4096
  }

  // So does every entry. A table that fits in the first page of the block does (OnePageTable).
  ghost predicate TableTogether(m: Mem, c: ArgsCall) {
    forall i: nat :: i < |c.ptrs| ==> EntryTogether(m, c, i)
  }

  ghost predicate ArgsRequest(w: World, c: ArgsCall) {
    && Inv(w) && IsRoot(w, c.s) && IsDirectory(w, c.d) && |c.ptrs| == |c.lens|
    && c.to % 4096 == 0 && 0x8000_0000 <= c.to
    && RangeMapped(w.mem, c.d, c.to, StringOffset(|c.lens|, c.lens, |c.lens|))
    && c.x + 3 <= 1024 && Owned(w, c.stack, Stack)
    && c.Local() < 0x8000_0000 && VaMapped(w.mem, c.s, c.Local()) && VaFrame(w.mem, c.s, c.Local()) == c.stack
    && SourceSafe(w, c.s, c.argv, 4 * |c.ptrs|, c.d, c.stack)
    && (forall i :: 0 <= i < |c.ptrs| ==> HoldsWord(w.mem, c.s, c.argv + 4 * i, c.ptrs[i]))
    && (forall i :: 0 <= i < |c.ptrs| ==>
          c.ptrs[i] != 0 && SourceSafe(w, c.s, c.ptrs[i], c.lens[i] + 1, c.d, c.stack) &&
              IsString(w.mem, c.s, c.ptrs[i], c.lens[i]))
  }

  // Entry k of the table, and string k, are in place.
  ghost predicate ArgPassed(m0: Mem, m: Mem, c: ArgsCall, k: nat)
    requires k < |c.ptrs| == |c.lens|
  {
    && c.Dest(k) < 0x1_0000_0000
    && HoldsWord(m, c.d, c.Slot(k), c.Dest(k))
    && Arrived(m0, m, c.s, c.ptrs[k], c.d, c.Dest(k), c.lens[k] + 1)
  }

  // The block decodes, in space d, to the arguments: argc, the address of the table, and for every table
  // entry the string that the caller passed.
  ghost predicate ArgsPassed(m0: Mem, m: Mem, c: ArgsCall)
    requires |c.ptrs| == |c.lens|
  {
    && |c.ptrs| < 0x1_0000_0000 && c.to + 12 < 0x1_0000_0000
    && HoldsWord(m, c.d, c.to + 4, |c.ptrs|) && HoldsWord(m, c.d, c.to + 8, c.to + 12)
    && forall k :: 0 <= k < |c.ptrs| ==> ArgPassed(m0, m, c, k)
  }

  // A string that arrived is a string of the same length.
  lemma ArrivedString(m0: Mem, m: Mem, s: nat, src: nat, d: nat, dst: nat, len: nat)
    requires IsString(m0, s, src, len) && Arrived(m0, m, s, src, d, dst, len + 1)
    ensures IsString(m, d, dst, len)
  {
    hide VaMapped, VaByte;
    forall k | dst <= k < dst + len + 1
      ensures VaMapped(m, d, k) && VaByte(m, d, k) == VaByte(m0, s, src + (k - dst))
    {
      assert ArrivedAt(m0, m, s, src, d, dst, k);
    }
    assert VaByte(m, d, dst + len) == VaByte(m0, s, src + len);
  }

  // copy_args on its way, with i arguments passed.
  ghost predicate ArgsProgress(w: World, m: Mem, c: ArgsCall, i: nat)
    requires |c.ptrs| == |c.lens| && i <= |c.ptrs|
  {
    && OnlyArgs(w, m, c.d, c.stack) && c.stack < |m| && c.x + 2 < 1024
    && m[c.stack][c.x + 1] == |c.ptrs| && m[c.stack][c.x + 2] == c.to + 12
    && forall k :: 0 <= k < i ==> ArgPassed(w.mem, m, c, k)
  }

  lemma ArgsWorld(w: World, m: Mem, d: nat, stack: nat, r: nat)
    requires Inv(w) && OnlyArgs(w, m, d, stack) && Owned(w, stack, Stack) && IsRoot(w, r)
    ensures Inv(w.(mem := m)) && stack < |m|
    ensures forall va: Word :: VaFrame(m, r, va) == VaFrame(w.mem, r, va) && VaMapped(m, r, va) == VaMapped(w.mem, r, va)
  {
    DataWriteKeeps(w, m);
    forall va: Word
      ensures VaFrame(m, r, va) == VaFrame(w.mem, r, va) && VaMapped(m, r, va) == VaMapped(w.mem, r, va)
    {
      IndicesAddress(va);
    }
  }

  // Safe sources keep their bytes.
  lemma SourceSame(w: World, m: Mem, s: nat, a: nat, n: nat, d: nat, stack: nat, k: nat)
    requires Inv(w) && OnlyArgs(w, m, d, stack) && Owned(w, stack, Stack) && IsRoot(w, s)
    requires SourceSafe(w, s, a, n, d, stack) && a <= k < a + n
    ensures k < 0x1_0000_0000 && VaMapped(w.mem, s, k) && VaMapped(m, s, k) && VaByte(m, s, k) == VaByte(w.mem, s, k)
  {
    ArgsWorld(w, m, d, stack, s);
    hide Inv, Mapped, PageOf, FrameByte;
    assert VaMapped(w.mem, s, k);
  }

  // No byte of a safe source is a target in the user half of d.
  lemma SafeSource(w: World, m: Mem, s: nat, a: nat, n: nat, d: nat, stack: nat, dst: nat, n': nat)
    requires Inv(w) && OnlyArgs(w, m, d, stack) && Owned(w, stack, Stack) && IsRoot(w, s) && IsDirectory(w, d)
    requires SourceSafe(w, s, a, n, d, stack) && a != 0
    requires 0x8000_0000 <= dst && RangeMapped(w.mem, d, dst, n')
    ensures n == n' ==> CopyRequested(w.(mem := m), s, a, d, dst, n) && RangeMapped(m, d, dst, n)
  {
    hide Inv, Mapped, PageOf, OnlyArgs;
    ArgsWorld(w, m, d, stack, s);
    ArgsWorld(w, m, d, stack, d);
    forall k | a <= k < a + n
      ensures VaMapped(m, s, k) && !IsTarget(m, d, dst, n', VaFrame(m, s, k), k % 4096)
    {
      assert VaMapped(w.mem, s, k);
      if IsTarget(m, d, dst, n', VaFrame(m, s, k), k % 4096) {
        var k' :| dst <= k' < dst + n' && VaFrame(m, d, k') == VaFrame(m, s, k) && k' % 4096 == k % 4096;
        VaOwner(w, d, k');
      }
    }
  }

  // The copy of argument i is one that memory_copy_uvm_data can do.
  lemma ArgRequested(w: World, m: Mem, c: ArgsCall, i: nat)
    requires |c.ptrs| == |c.lens| && i < |c.ptrs|
    requires ArgsRequest(w, c) && OnlyArgs(w, m, c.d, c.stack)
    ensures c.Dest(i) + c.lens[i] + 1 <= 0x1_0000_0000
    ensures CopyRequested(w.(mem := m), c.s, c.ptrs[i], c.d, c.Dest(i), c.lens[i] + 1)
    ensures RangeMapped(m, c.d, c.Dest(i), c.lens[i] + 1)
  {
    hide Inv, VaMapped, OnlyArgs, IsString, HoldsWord, CopyRequested, SourceSafe;
    OffsetsRise(|c.lens|, c.lens, i, |c.lens|);
    SafeSource(w, m, c.s, c.ptrs[i], c.lens[i] + 1, c.d, c.stack, c.Dest(i), c.lens[i] + 1);
  }

  lemma OnlyArgsGrows(w: World, m: Mem, m': Mem, d: nat, stack: nat)
    requires OnlyArgs(w, m, d, stack) && OnlyPagesOf(w.(mem := m), m', d) && Owned(w, stack, Stack) && stack < |m|
    ensures OnlyArgs(w, m', d, stack) && |m'| == |m| && m'[stack] == m[stack]
  {
  }

  // What was passed before stays when the block is written from address dst on: above the table and the
  // strings before i, or at entry i and following of the table, or below the table.
  lemma ArgsKept(m0: Mem, m: Mem, m': Mem, c: ArgsCall, i: nat, dst: nat, n: nat)
    requires |c.ptrs| == |c.lens| && i <= |c.ptrs| && 0x8000_0000 <= c.to
    requires forall k :: 0 <= k < i ==> ArgPassed(m0, m, c, k)
    requires OnlyRange(m, m', c.d, dst, n)
    requires c.Dest(i) <= dst || (c.Slot(i) <= dst && dst + n <= c.Slot(|c.ptrs|)) || dst + n <= c.to + 12
    ensures forall k :: 0 <= k < i ==> ArgPassed(m0, m', c, k)
  {
    hide OnlyRange, HoldsWord, Arrived;
    forall k | 0 <= k < i
      ensures ArgPassed(m0, m', c, k)
    {
      assert ArgPassed(m0, m, c, k);
      OffsetsRise(|c.lens|, c.lens, k, i);
      WordKept(m, m', c.d, c.Slot(k), c.Dest(k), dst, n);
      StringKept(m0, m, m', c.s, c.ptrs[k], c.d, c.Dest(k), c.lens[k] + 1, dst, n);
    }
  }

  // String i was copied.
  lemma StringPassed(w: World, m: Mem, m1: Mem, c: ArgsCall, i: nat)
    requires |c.ptrs| == |c.lens| && i < |c.ptrs|
    requires ArgsRequest(w, c) && ArgsProgress(w, m, c, i)
    requires UvmCopied(m, m1, c.s, c.ptrs[i], c.d, c.Dest(i), c.lens[i] + 1)
    requires OnlyPagesOf(w.(mem := m), m1, c.d)
    ensures ArgsProgress(w, m1, c, i)
    ensures Arrived(w.mem, m1, c.s, c.ptrs[i], c.d, c.Dest(i), c.lens[i] + 1)
    ensures OnlyRange(m, m1, c.d, c.Dest(i), c.lens[i] + 1)
  {
    hide Inv, FrameByte, OnlyArgs, OnlyPagesOf, IsString, HoldsWord;
    hide OnlyRange, ArgPassed, CopyRequested, SourceSafe, RestSame, VaMapped;
    OnlyArgsGrows(w, m, m1, c.d, c.stack);
    ArgRequested(w, m, c, i);
    CopyOnlyRange(w.(mem := m), m1, c.s, c.ptrs[i], c.d, c.Dest(i), c.lens[i] + 1);
    ArgsKept(w.mem, m, m1, c, i, c.Dest(i), c.lens[i] + 1);
    StringFromStart(w, m, m1, c, i);
  }

  lemma StringFromStart(w: World, m: Mem, m1: Mem, c: ArgsCall, i: nat)
    requires |c.ptrs| == |c.lens| && i < |c.ptrs|
    requires ArgsRequest(w, c) && OnlyArgs(w, m, c.d, c.stack)
    requires Arrived(m, m1, c.s, c.ptrs[i], c.d, c.Dest(i), c.lens[i] + 1)
    ensures Arrived(w.mem, m1, c.s, c.ptrs[i], c.d, c.Dest(i), c.lens[i] + 1)
  {
    hide Inv, OnlyArgs, IsString, HoldsWord, SourceSafe, VaMapped, VaByte;
    var a := c.Dest(i);
    forall k | a <= k < a + (c.lens[i] + 1)
      ensures ArrivedAt(w.mem, m1, c.s, c.ptrs[i], c.d, a, k)
    {
      assert ArrivedAt(m, m1, c.s, c.ptrs[i], c.d, a, k);
      SourceSame(w, m, c.s, c.ptrs[i], c.lens[i] + 1, c.d, c.stack, c.ptrs[i] + (k - a));
    }
  }

  // Entry i of the table can be stored.
  lemma EntryReady(w: World, m: Mem, c: ArgsCall, i: nat)
    requires |c.ptrs| == |c.lens| && i < |c.ptrs|
    requires ArgsRequest(w, c) && OnlyArgs(w, m, c.d, c.stack)
    ensures 0x8000_0000 <= c.to && c.Slot(|c.ptrs|) <= 0x1_0000_0000
    ensures VaMapped(m, c.d, c.Slot(i)) && c.Slot(i) % 4 == 0
    ensures Inv(w.(mem := m)) && IsDirectory(w, c.d) && Owned(w, c.stack, Stack) && IsDirectory(w.(mem := m), c.d)
  {
    hide Inv, OnlyArgs, IsString, HoldsWord, SourceSafe, VaMapped;
    OffsetsRise(|c.lens|, c.lens, 0, |c.lens|);
    ArgsWorld(w, m, c.d, c.stack, c.d);
    assert VaMapped(w.mem, c.d, c.Slot(i));
    SlotAligned(c, i);
  }

  lemma SlotAligned(c: ArgsCall, i: nat)
    requires c.to % 4096 == 0
    ensures c.Slot(i) % 4 == 0
  {
    var q := c.to / 4096;
    assert c.Slot(i) == (q * 1024 + 3 + i) * 4;
  }

  // It was stored, with string i already in place.
  lemma EntryPassed(w: World, m: Mem, c: ArgsCall, i: nat)
    requires |c.ptrs| == |c.lens| && i < |c.ptrs|
    requires 0x8000_0000 <= c.to && c.Slot(|c.ptrs|) <= 0x1_0000_0000 && c.Dest(i) < 0x1_0000_0000
    requires VaMapped(m, c.d, c.Slot(i)) && c.Slot(i) % 4 == 0
    requires Inv(w.(mem := m)) && IsDirectory(w, c.d) && Owned(w, c.stack, Stack)
    requires ArgsProgress(w, m, c, i)
    requires Arrived(w.mem, m, c.s, c.ptrs[i], c.d, c.Dest(i), c.lens[i] + 1)
    ensures ArgsProgress(w, StoreAt(m, c.d, c.Slot(i), c.Dest(i)), c, i + 1)
  {
    hide Inv, FrameByte, OnlyArgs, OnlyPagesOf, HoldsWord, OnlyRange, ArgPassed, Arrived, StoreAt, VaMapped;
    OffsetsRise(|c.lens|, c.lens, i, |c.lens|);
    WordStored(w.(mem := m), c.d, c.Slot(i), c.Dest(i));
    var m' := StoreAt(m, c.d, c.Slot(i), c.Dest(i));
    OnlyArgsGrows(w, m, m', c.d, c.stack);
    ArgsKept(w.mem, m, m', c, i, c.Slot(i), 4);
    StringKept(w.mem, m, m', c.s, c.ptrs[i], c.d, c.Dest(i), c.lens[i] + 1, c.Slot(i), 4);
    NewArg(w.mem, m', c, i);
  }

  lemma NewArg(m0: Mem, m: Mem, c: ArgsCall, i: nat)
    requires i < |c.ptrs| == |c.lens| && c.Dest(i) < 0x1_0000_0000
    requires HoldsWord(m, c.d, c.Slot(i), c.Dest(i))
    requires Arrived(m0, m, c.s, c.ptrs[i], c.d, c.Dest(i), c.lens[i] + 1)
    ensures ArgPassed(m0, m, c, i)
  {
  }

  // The bytes of the local task_args_t: those of three words of frame stack.
  ghost predicate LocalAt(w: World, m: Mem, c: ArgsCall, k: nat) {
    && c.Local() + k < 0x1_0000_0000 && c.stack < |m| && 4 * c.x + k < 4096
    && VaMapped(w.mem, c.s, c.Local() + k) && VaMapped(m, c.s, c.Local() + k)
    && VaFrame(w.mem, c.s, c.Local() + k) == c.stack
    && VaByte(m, c.s, c.Local() + k) == FrameByte(m[c.stack], 4 * c.x + k)
  }

  lemma LocalPlace(w: World, m: Mem, c: ArgsCall, k: nat)
    requires ArgsRequest(w, c) && OnlyArgs(w, m, c.d, c.stack) && k < 12
    ensures LocalAt(w, m, c, k)
  {
    hide Inv, VaMapped, VaFrame, VaByte, OnlyArgs, IsString, SourceSafe, HoldsWord, RangeMapped, FrameByte;
    StackBytes(w, m, c.s, c.d, c.stack, c.x, c.Local(), k);
  }

  lemma StackBytes(w: World, m: Mem, s: nat, d: nat, stack: nat, x: nat, a: nat, k: nat)
    requires Inv(w) && OnlyArgs(w, m, d, stack) && Owned(w, stack, Stack) && IsRoot(w, s)
    requires x + 3 <= 1024 && k < 12 && a == stack * 4096 + 4 * x && a < 0x8000_0000
    requires VaMapped(w.mem, s, a) && VaFrame(w.mem, s, a) == stack
    ensures stack < |m|
    ensures VaMapped(w.mem, s, a + k) && VaMapped(m, s, a + k)
    ensures VaFrame(w.mem, s, a + k) == stack
    ensures VaByte(m, s, a + k) == FrameByte(m[stack], 4 * x + k)
  {
    ArgsWorld(w, m, d, stack, s);
    hide Inv, Mapped, PageOf, OnlyArgs, FrameByte;
    assert a % 4096 == 4 * x;
    SamePage(w.mem, s, a, k);
  }

  // The copy of the local task_args_t to the head of the block can be done.
  lemma HeadRequested(w: World, m: Mem, c: ArgsCall)
    requires ArgsRequest(w, c) && OnlyArgs(w, m, c.d, c.stack)
    ensures CopyRequested(w.(mem := m), c.s, c.Local(), c.d, c.to, 12) && RangeMapped(m, c.d, c.to, 12)
  {
    hide Inv, VaMapped, OnlyArgs, IsString, HoldsWord, SourceSafe, VaFrame;
    OffsetsRise(|c.lens|, c.lens, 0, |c.lens|);
    ArgsWorld(w, m, c.d, c.stack, c.s);
    ArgsWorld(w, m, c.d, c.stack, c.d);
    PoolAboveZero(w, c.stack);
    forall k | c.Local() <= k < c.Local() + 12
      ensures VaMapped(m, c.s, k) && !IsTarget(m, c.d, c.to, 12, VaFrame(m, c.s, k), k % 4096)
    {
      LocalPlace(w, m, c, k - c.Local());
      if IsTarget(m, c.d, c.to, 12, VaFrame(m, c.s, k), k % 4096) {
        var k' :| c.to <= k' < c.to + 12 && VaFrame(m, c.d, k') == VaFrame(m, c.s, k) && k' % 4096 == k % 4096;
        assert VaMapped(w.mem, c.d, k');
        VaOwner(w, c.d, k');
      }
    }
  }

  lemma PoolAboveZero(w: World, f: nat)
    requires Inv(w) && f in w.owner
    ensures f > 0
  {
  }

  // With the head copied, everything is in place.
  lemma HeadPassed(w: World, m: Mem, m': Mem, c: ArgsCall)
    requires |c.ptrs| == |c.lens|
    requires ArgsRequest(w, c) && ArgsProgress(w, m, c, |c.ptrs|)
    requires UvmCopied(m, m', c.s, c.Local(), c.d, c.to, 12) && OnlyPagesOf(w.(mem := m), m', c.d)
    ensures ArgsPassed(w.mem, m', c) && OnlyArgs(w, m', c.d, c.stack)
  {
    hide Inv, FrameByte, OnlyArgs, OnlyPagesOf, IsString, HoldsWord;
    hide OnlyRange, ArgPassed, CopyRequested, SourceSafe, RestSame, Arrived, VaMapped;
    OnlyArgsGrows(w, m, m', c.d, c.stack);
    HeadRequested(w, m, c);
    CopyOnlyRange(w.(mem := m), m', c.s, c.Local(), c.d, c.to, 12);
    ArgsKept(w.mem, m, m', c, |c.ptrs|, c.to, 12);
    HeadWord(w, m, m', c, 1);
    HeadWord(w, m, m', c, 2);
  }

  // Word q of the head.
  lemma HeadWord(w: World, m: Mem, m': Mem, c: ArgsCall, q: nat)
    requires ArgsRequest(w, c) && OnlyArgs(w, m, c.d, c.stack) && q < 3
    requires Arrived(m, m', c.s, c.Local(), c.d, c.to, 12)
    ensures c.stack < |m| && c.x + q < 1024 && c.to + 12 <= 0x1_0000_0000
    ensures HoldsWord(m', c.d, c.to + 4 * q, m[c.stack][c.x + q])
  {
    hide FrameByte, OnlyArgs, ArgsRequest, Arrived, VaMapped, VaByte;
    HeadByte(w, m, m', c, 4 * q);
    HeadByte(w, m, m', c, 4 * q + 1);
    HeadByte(w, m, m', c, 4 * q + 2);
    HeadByte(w, m, m', c, 4 * q + 3);
    WordBytes(m[c.stack], c.x + q);
  }

  lemma HeadByte(w: World, m: Mem, m': Mem, c: ArgsCall, k: nat)
    requires ArgsRequest(w, c) && OnlyArgs(w, m, c.d, c.stack) && k < 12
    requires Arrived(m, m', c.s, c.Local(), c.d, c.to, 12)
    ensures c.to + 12 <= 0x1_0000_0000 && c.stack < |m| && c.x + 3 <= 1024
    ensures VaMapped(m', c.d, c.to + k) && VaByte(m', c.d, c.to + k) == FrameByte(m[c.stack], 4 * c.x + k)
  {
    hide OnlyArgs, VaMapped, VaByte, FrameByte, SourceSafe, HoldsWord, IsString, RangeMapped, Inv;
    LocalPlace(w, m, c, k);
    assert ArrivedAt(m, m', c.s, c.Local(), c.d, c.to, c.to + k);
  }

  // What is left of the sources in the middle of copy_args: the pointer and the string of argument i.
  lemma ArgSource(w: World, m: Mem, c: ArgsCall, i: nat)
    requires |c.ptrs| == |c.lens| && i < |c.ptrs|
    requires ArgsRequest(w, c) && OnlyArgs(w, m, c.d, c.stack)
    ensures c.argv + 4 * i + 4 <= 0x1_0000_0000
    ensures HoldsWord(m, c.s, c.argv + 4 * i, c.ptrs[i])
    ensures c.ptrs[i] != 0 && IsString(m, c.s, c.ptrs[i], c.lens[i])
  {
    hide Inv, OnlyArgs, VaMapped, VaByte, SourceSafe;
    forall k: nat | c.argv + 4 * i <= k < c.argv + 4 * i + 4
      ensures k < 0x1_0000_0000 && VaMapped(w.mem, c.s, k) && VaMapped(m, c.s, k) &&
               VaByte(m, c.s, k) == VaByte(w.mem, c.s, k)
    {
      SourceSame(w, m, c.s, c.argv, 4 * |c.ptrs|, c.d, c.stack, k);
    }
    assert HoldsWord(w.mem, c.s, c.argv + 4 * i, c.ptrs[i]) && IsString(w.mem, c.s, c.ptrs[i], c.lens[i]);
    forall k: nat | c.ptrs[i] <= k < c.ptrs[i] + (c.lens[i] + 1)
      ensures k < 0x1_0000_0000 && VaMapped(w.mem, c.s, k) && VaMapped(m, c.s, k) &&
               VaByte(m, c.s, k) == VaByte(w.mem, c.s, k)
    {
      SourceSame(w, m, c.s, c.ptrs[i], c.lens[i] + 1, c.d, c.stack, k);
    }
  }

  // A pointer read through the space in use
  method LoadWord(mm: MemoryManager, va: Word, ghost v: Word) returns (r: Word)
    requires HoldsWord(mm.State().mem, mm.cr3, va, v)
    ensures r == v
  {
    var m := mm.frames[..];
    assert VaMapped(m, mm.cr3, va) && VaMapped(m, mm.cr3, va + 1) && VaMapped(m, mm.cr3, va + 2) &&
        VaMapped(m, mm.cr3, va + 3);
    r := WordOf(VaByte(m, mm.cr3, va), VaByte(m, mm.cr3, va + 1), VaByte(m, mm.cr3, va + 2), VaByte(m, mm.cr3, va + 3));
  }

  // kstrlen
  method Kstrlen(mm: MemoryManager, str: Word, ghost n: nat) returns (len: nat)
    requires str == 0 || IsString(mm.State().mem, mm.cr3, str, n)
    ensures len == if str == 0 then 0 else n
  {
    if str == 0 {
      return 0;
    }
    var m := mm.frames[..];
    len := 0;
    assert VaMapped(m, mm.cr3, str);
    while VaByte(m, mm.cr3, str + len) != 0
      invariant len <= n && VaMapped(m, mm.cr3, str + len)
      decreases n - len
    {
      assert str + len != str + n;
      assert VaMapped(m, mm.cr3, str + len + 1);
      len := len + 1;
    }
  }

  // The store through dest_argv_tb: word v goes to the physical address pa.
  method StoreWord(mm: MemoryManager, pa: nat, v: Word)
    requires pa / 4096 < mm.frames.Length
    modifies mm.frames
    ensures mm.State() == old(mm.State()).(mem := StoreThrough(old(mm.State().mem), pa, v))
    ensures old(mm.Valid()) && Inv(mm.State()) ==> mm.Valid()
  {
    hide Inv, Represents, PageAllocator.Valid;
    mm.frames[pa / 4096] := mm.frames[pa / 4096][pa % 4096 / 4 := v];
    assert mm.frames[..] == StoreThrough(old(mm.State().mem), pa, v);
  }

  function StoreThrough(m: Mem, pa: nat, v: Word): Mem
    requires pa / 4096 < |m|
  {
    m[pa / 4096 := m[pa / 4096][pa % 4096 / 4 := v]]
  }

  ghost predicate ArgsState(mm: MemoryManager, w: World, c: ArgsCall, i: nat)
    requires |c.ptrs| == |c.lens| && i <= |c.ptrs|
    reads mm`owner, mm`cr3, mm.frames, mm.alloc, mm.alloc.bitmap.bits
  {
    && mm.Valid() && ArgsRequest(w, c) && mm.cr3 == c.s
    && mm.State() == w.(mem := mm.State().mem)
    && ArgsProgress(w, mm.State().mem, c, i)
  }

  // copy_args. The call c says what the arguments are; the local task_args_t is word x of frame stack.
  method CopyArgs(mm: MemoryManager, to: Word, d: nat, argc: nat, argv: Word, stack: nat, x: nat, ghost c: ArgsCall)
    returns (err: int)
    requires mm.Valid() && ArgsRequest(mm.State(), c) && TableTogether(mm.State().mem, c) && mm.cr3 == c.s
    requires c.to == to && c.d == d && |c.ptrs| == argc && c.argv == argv && c.stack == stack && c.x == x
    modifies mm.frames
    ensures mm.Valid() && err == 0
    ensures |c.ptrs| == |c.lens| && ArgsPassed(old(mm.State().mem), mm.State().mem, c)
    ensures OnlyArgs(old(mm.State()), mm.State().mem, d, stack)
    ensures mm.State() == old(mm.State()).(mem := mm.State().mem)
  {
    hide *;
    ghost var w := mm.State();
    ArgsFits(w, c);
    StoreLocal(mm, w, c, argc, to + 12, stack, x);
    ArgsOpen(mm, w, c);
    var tb := GetPaddr(mm, d, to + 12);
    var dest: int, i: nat := to + 12 + 4 * argc, 0;
    while i < argc
      invariant i <= argc && ArgsState(mm, w, c, i) && dest == c.Dest(i)
    {
      EntryOpen(mm, w, c, i);
      var len := PassArg(mm, d, argv, i, dest, tb + 4 * i, w, c);
      NextDest(c, i);
      dest := dest + len;
      i := i + 1;
    }
    err := PassHead(mm, to, d, stack, x, w, c);
  }

  // The strings follow the table, and each other, without a gap.
  lemma NextDest(c: ArgsCall, i: nat)
    requires i < |c.lens|
    ensures c.Dest(0) == c.to + 12 + 4 * |c.lens| && c.Slot(i) == c.to + 12 + 4 * i
    ensures c.Dest(i + 1) == c.Dest(i) + c.lens[i] + 1
  {
  }

  lemma ArgsOpen(mm: MemoryManager, w: World, c: ArgsCall)
    requires |c.ptrs| == |c.lens| && ArgsState(mm, w, c, 0)
    ensures mm.Valid() && IsRoot(mm.State(), c.d) && c.to + 12 < 0x1_0000_0000
    ensures c.Dest(0) == c.to + 12 + 4 * |c.ptrs|
    ensures PaddrOf(mm.State().mem, c.d, c.to + 12) == PaddrOf(w.mem, c.d, c.to + 12)
  {
    hide Inv, OnlyArgs, ArgPassed, HoldsWord, IsString, SourceSafe, VaMapped, VaFrame, PaddrOf;
    TableStart(w, mm.State().mem, c);
  }

  lemma EntryOpen(mm: MemoryManager, w: World, c: ArgsCall, i: nat)
    requires i < |c.ptrs| == |c.lens| && ArgsState(mm, w, c, i) && TableTogether(w.mem, c)
    ensures c.to + 12 < 0x1_0000_0000 && EntryTogether(w.mem, c, i)
    ensures (PaddrOf(w.mem, c.d, c.to + 12) + 4 * i) / 4096 < mm.frames.Length
  {
    hide Inv, ArgPassed, HoldsWord, IsString, SourceSafe, PaddrOf, VaFrame;
    EntryAddress(w, c, i);
  }

  // Where copy_args stores entry i
  lemma EntryAddress(w: World, c: ArgsCall, i: nat)
    requires ArgsRequest(w, c) && i < |c.ptrs| == |c.lens|
    ensures c.Slot(i) + 4 <= c.Dest(0) <= 0x1_0000_0000 && c.to + 12 < 0x1_0000_0000 && VaMapped(w.mem, c.d, c.Slot(i))
    ensures var pa := PaddrOf(w.mem, c.d, c.to + 12) + 4 * i;
            && pa % 4096 == c.Slot(i) % 4096
            && (EntryTogether(w.mem, c, i) <==> pa / 4096 == VaFrame(w.mem, c.d, c.Slot(i)))
    ensures VaFrame(w.mem, c.d, c.Slot(i)) < |w.mem|
  {
    hide Inv, IsString, SourceSafe, HoldsWord, VaFrame, PaddrOf;
    OffsetsRise(|c.lens|, c.lens, 0, |c.lens|);
    assert VaMapped(w.mem, c.d, c.to) && VaMapped(w.mem, c.d, c.Slot(i));
    SamePage(w.mem, c.d, c.to, 12);
    PaddrTranslates(w.mem, c.d, c.to + 12);
    SlotOffset(c, i);
    var pa, f := PaddrOf(w.mem, c.d, c.to + 12), VaFrame(w.mem, c.d, c.to);
    assert pa == f * 4096 + 12;
    assert (pa + 4 * i) / 4096 == f + (12 + 4 * i) / 4096 && (pa + 4 * i) % 4096 == (12 + 4 * i) % 4096;
    FrameInside(w.mem, c.d, c.Slot(i));
  }

  lemma FrameInside(m: Mem, r: nat, va: Word)
    requires VaMapped(m, r, va)
    ensures VaFrame(m, r, va) < |m|
  {
  }

  lemma ArgsFits(w: World, c: ArgsCall)
    requires ArgsRequest(w, c)
    ensures |c.ptrs| == |c.lens| && c.to + 12 + 4 * |c.ptrs| <= 0x1_0000_0000 && c.to + 12 < 0x1_0000_0000
    ensures c.to % 4096 == 0
    ensures IsRoot(w, c.d) && c.stack < |w.mem| && c.x + 3 <= 1024 && Owned(w, c.stack, Stack)
  {
    hide OnlyArgs, IsString, SourceSafe, HoldsWord;
    OffsetsRise(|c.lens|, c.lens, 0, |c.lens|);
  }

  // task_args.argc = argc; task_args.argv = to + sizeof(task_args_t)
  method StoreLocal(mm: MemoryManager, ghost w: World, ghost c: ArgsCall, argc: nat, table: Word, stack: nat, x: nat)
    requires mm.Valid() && mm.State() == w && ArgsRequest(w, c) && mm.cr3 == c.s
    requires |c.ptrs| == argc == |c.lens| && table == c.to + 12 && c.stack == stack && c.x == x
    modifies mm.frames
    ensures ArgsState(mm, w, c, 0)
  {
    hide Inv, ArgsRequest, ArgsProgress, Represents, PageAllocator.Valid;
    ArgsFits(w, c);
    mm.frames[stack] := mm.frames[stack][x + 1 := argc][x + 2 := table];
    LocalStored(w, mm.frames[..], c);
  }

  lemma LocalStored(w: World, m: Mem, c: ArgsCall)
    requires ArgsRequest(w, c) && |c.ptrs| == |c.lens| && c.x + 3 <= 1024 && c.stack < |w.mem| &&
        c.to + 12 < 0x1_0000_0000
    requires |c.ptrs| < 0x1_0000_0000
    requires m == w.mem[c.stack := w.mem[c.stack][c.x + 1 := |c.ptrs|][c.x + 2 := c.to + 12]]
    ensures Inv(w.(mem := m)) && ArgsProgress(w, m, c, 0)
  {
    hide Inv, IsString, SourceSafe, HoldsWord, VaMapped, VaFrame;
    DataWriteKeeps(w, m);
  }

  // Where copy_args stores entry i of the table is where entry i is for the new program, exactly when the page
  // of the entry lies as far behind the first page of the block in memory as in the address space.
  lemma TableEntryExact(m: Mem, c: ArgsCall, i: nat)
    requires c.to % 4096 == 0 && c.to + 12 + 4 * i < 0x1_0000_0000 && VaMapped(m, c.d, c.to + 12)
    ensures PaddrOf(m, c.d, c.to + 12) + 4 * i == VaFrame(m, c.d, c.Slot(i)) * 4096 + c.Slot(i) % 4096
       <==> EntryTogether(m, c, i)
  {
    SamePage(m, c.d, c.to, 12);
    PaddrTranslates(m, c.d, c.to + 12);
    hide VaFrame, VaMapped, PaddrOf;
    var pa := PaddrOf(m, c.d, c.to + 12);
    assert pa == VaFrame(m, c.d, c.to) * 4096 + 12;
    SlotOffset(c, i);
  }

  lemma SlotOffset(c: ArgsCall, i: nat)
    requires c.to % 4096 == 0
    ensures c.Slot(i) % 4096 == (12 + 4 * i) % 4096
  {
    var q, q', r := c.to / 4096, (12 + 4 * i) / 4096, (12 + 4 * i) % 4096;
    assert c.Slot(i) == (q + q') * 4096 + r;
  }

  lemma OnePageTable(m: Mem, c: ArgsCall)
    requires c.to % 4096 == 0 && c.to + 12 + 4 * |c.ptrs| <= 0x1_0000_0000 && 12 + 4 * |c.ptrs| <= 4096
    ensures TableTogether(m, c)
  {
    hide VaFrame;
    forall i: nat | i < |c.ptrs|
      ensures EntryTogether(m, c, i)
    {
      SamePage(m, c.d, c.to, 12 + 4 * i);
    }
  }

  lemma TableStart(w: World, m: Mem, c: ArgsCall)
    requires ArgsRequest(w, c) && |c.ptrs| == |c.lens| && OnlyArgs(w, m, c.d, c.stack)
    ensures c.to + 12 < 0x1_0000_0000 && PaddrOf(m, c.d, c.to + 12) == PaddrOf(w.mem, c.d, c.to + 12)
  {
    hide Inv, IsString, SourceSafe, HoldsWord, OnlyArgs, VaMapped, VaFrame, PaddrOf;
    ArgsFits(w, c);
    OffsetsRise(|c.lens|, c.lens, 0, |c.lens|);
    assert VaMapped(w.mem, c.d, c.to);
    SamePage(w.mem, c.d, c.to, 12);
    ArgsWorld(w, m, c.d, c.stack, c.d);
    PaddrTranslates(m, c.d, c.to + 12);
    PaddrTranslates(w.mem, c.d, c.to + 12);
  }

  // What becomes of entry i when it is not together with the block, from the memory m before its turn to m' after
  // it: the new program's entry keeps its old word, and the pointer overwrites a word of another frame, that of
  // whatever owns the frame.
  ghost predicate EntryAstray(m0: Mem, m: Mem, m': Mem, c: ArgsCall, i: nat, entry: nat)
    requires i <= |c.lens|
  {
    && c.Slot(i) < 0x1_0000_0000
    && var f, g, q := VaFrame(m0, c.d, c.Slot(i)), entry / 4096, c.Slot(i) % 4096 / 4;
    && f != g && f < |m| && g < |m| && |m'| == |m|
    && At(m', f, q) == At(m, f, q) && At(m', g, q) == c.Dest(i)
  }

  // One turn of the loop of copy_args; entry is the physical address that entry i of the table is stored at. The
  // entries before i are in place.
  method PassArg(mm: MemoryManager, d: nat, argv: Word, i: nat, dest: int, entry: nat, ghost w: World, ghost c: ArgsCall)
    returns (len: nat)
    requires |c.ptrs| == |c.lens| && i < |c.ptrs| && ArgsState(mm, w, c, i) && c.to + 12 < 0x1_0000_0000
    requires c.d == d && c.argv == argv && dest == c.Dest(i)
    requires entry == PaddrOf(w.mem, c.d, c.to + 12) + 4 * i && entry / 4096 < mm.frames.Length
    modifies mm.frames
    ensures len == c.lens[i] + 1
    ensures EntryTogether(w.mem, c, i) ==> ArgsState(mm, w, c, i + 1)
    ensures !EntryTogether(w.mem, c, i) ==> EntryAstray(w.mem, old(mm.State().mem), mm.State().mem, c, i, entry)
  {
    hide Inv, OnlyArgs, ArgPassed, ArgsRequest, IsString, HoldsWord, EntryAstray, EntryTogether, PaddrOf;
    hide UvmCopied, OnlyPagesOf, OnlyCopied, CopyOutcome, CopyRequested, RangeMapped, Arrived, StoreAt, VaMapped, VaFrame;
    ghost var m := mm.State().mem;
    ArgSource(w, m, c, i);
    ArgRequested(w, m, c, i);
    var from := LoadWord(mm, argv + 4 * i, c.ptrs[i]);
    len := Kstrlen(mm, from, c.lens[i]);
    len := len + 1;
    var err;
    ghost var done;
    err, done := CopyUvmData(mm, dest, d, from, len);
    ghost var m1 := mm.State().mem;
    CopyToMapped(w.(mem := m), m1, c.s, from, d, dest, len, done);
    StoreWord(mm, entry, dest);
    EntryTurn(w, m, m1, c, i, entry);
  }

  // With the entries before i in place, string i has been copied, which led from m to m1.
  ghost predicate StringCopied(w: World, m: Mem, m1: Mem, c: ArgsCall, i: nat)
    requires |c.ptrs| == |c.lens| && i < |c.ptrs|
  {
    && ArgsRequest(w, c) && ArgsProgress(w, m, c, i)
    && UvmCopied(m, m1, c.s, c.ptrs[i], c.d, c.Dest(i), c.lens[i] + 1) && OnlyPagesOf(w.(mem := m), m1, c.d)
  }

  // String i has been copied, and the entry is stored.
  lemma EntryTurn(w: World, m: Mem, m1: Mem, c: ArgsCall, i: nat, entry: nat)
    requires |c.ptrs| == |c.lens| && i < |c.ptrs| && c.to + 12 < 0x1_0000_0000
    requires StringCopied(w, m, m1, c, i)
    requires entry == PaddrOf(w.mem, c.d, c.to + 12) + 4 * i && entry / 4096 < |m1| && c.Dest(i) < 0x1_0000_0000
    ensures var m' := StoreThrough(m1, entry, c.Dest(i));
            && (EntryTogether(w.mem, c, i) ==> ArgsProgress(w, m', c, i + 1) && Inv(w.(mem := m')))
            && (!EntryTogether(w.mem, c, i) ==> EntryAstray(w.mem, m, m', c, i, entry))
  {
    hide Inv, OnlyArgs, ArgPassed, IsString, HoldsWord, ArgsRequest, ArgsProgress;
    hide UvmCopied, OnlyPagesOf, RangeMapped, Arrived, VaMapped, VaFrame, PaddrOf;
    EntryAddress(w, c, i);
    if EntryTogether(w.mem, c, i) {
      EntryInPlace(w, m, m1, c, i, entry);
    } else {
      WordAstray(w, m, m1, c, i);
    }
  }

  lemma EntryInPlace(w: World, m: Mem, m1: Mem, c: ArgsCall, i: nat, entry: nat)
    requires |c.ptrs| == |c.lens| && i < |c.ptrs|
    requires StringCopied(w, m, m1, c, i)
    requires c.Slot(i) < 0x1_0000_0000 && entry / 4096 < |m1| && c.Dest(i) < 0x1_0000_0000
    requires entry / 4096 == VaFrame(w.mem, c.d, c.Slot(i)) && entry % 4096 == c.Slot(i) % 4096
    ensures var m' := StoreThrough(m1, entry, c.Dest(i)); ArgsProgress(w, m', c, i + 1) && Inv(w.(mem := m'))
  {
    hide Inv, OnlyArgs, ArgPassed, IsString, HoldsWord, ArgsRequest, UvmCopied, OnlyPagesOf, Arrived, VaMapped, VaFrame;
    StringPassed(w, m, m1, c, i);
    EntryReady(w, m1, c, i);
    SlotPlace(w, m1, c, i);
    EntryPassed(w, m1, c, i);
    WordStoredPages(w.(mem := m1), c.d, c.Slot(i), c.Dest(i));
    var m' := StoreAt(m1, c.d, c.Slot(i), c.Dest(i));
    assert m' == StoreThrough(m1, entry, c.Dest(i));
    ArgsWorldInv(w, m', c);
  }

  lemma ArgsWorldInv(w: World, m: Mem, c: ArgsCall)
    requires ArgsRequest(w, c) && OnlyArgs(w, m, c.d, c.stack)
    ensures Inv(w.(mem := m))
  {
    hide Inv, OnlyArgs, IsString, HoldsWord, SourceSafe, VaMapped, VaFrame;
    ArgsWorld(w, m, c.d, c.stack, c.d);
  }

  // The word of frame f that address va names is the same.
  predicate SameWord(m: Mem, m': Mem, f: nat, va: nat) {
    At(m', f, va % 4096 / 4) == At(m, f, va % 4096 / 4)
  }

  // The copy of string i leaves the word of entry i as it was.
  lemma WordAstray(w: World, m: Mem, m1: Mem, c: ArgsCall, i: nat)
    requires |c.ptrs| == |c.lens| && i < |c.ptrs| && c.Slot(i) < 0x1_0000_0000 && StringCopied(w, m, m1, c, i)
    ensures VaFrame(w.mem, c.d, c.Slot(i)) < |m| && |m1| == |m|
    ensures SameWord(m, m1, VaFrame(w.mem, c.d, c.Slot(i)), c.Slot(i))
  {
    hide Inv, StringCopied, OnlyPagesOf, OnlyRange, VaMapped, VaFrame, SameWord;
    AstrayParts(w, m, m1, c, i);
    WordUntouched(w.(mem := m), m1, c.d, c.Slot(i), c.Dest(i), c.lens[i] + 1);
  }

  // Where the word of entry i is, and that string i lies above it
  ghost predicate EntryFacts(w: World, m: Mem, m1: Mem, c: ArgsCall, i: nat)
    requires i < |c.ptrs| == |c.lens| && c.Slot(i) < 0x1_0000_0000
  {
    && Inv(w.(mem := m)) && IsDirectory(w.(mem := m), c.d) && OnlyPagesOf(w.(mem := m), m1, c.d)
    && 0x8000_0000 <= c.Slot(i) && c.Slot(i) % 4 == 0 && c.Slot(i) + 4 <= 0x1_0000_0000
    && VaMapped(m, c.d, c.Slot(i)) && VaFrame(m, c.d, c.Slot(i)) == VaFrame(w.mem, c.d, c.Slot(i))
    && OnlyRange(m, m1, c.d, c.Dest(i), c.lens[i] + 1) && c.Slot(i) + 4 <= c.Dest(i)
  }

  lemma AstrayParts(w: World, m: Mem, m1: Mem, c: ArgsCall, i: nat)
    requires |c.ptrs| == |c.lens| && i < |c.ptrs| && c.Slot(i) < 0x1_0000_0000 && StringCopied(w, m, m1, c, i)
    ensures EntryFacts(w, m, m1, c, i)
  {
    hide Inv, ArgsRequest, ArgsProgress, UvmCopied, OnlyPagesOf, OnlyArgs, VaMapped, VaFrame, OnlyRange, Arrived;
    ProgressOnly(w, m, c, i);
    StringPassed(w, m, m1, c, i);
    EntryReady(w, m, c, i);
    SlotPlace(w, m, c, i);
    SlotBelowDest(c, i);
  }

  lemma ProgressOnly(w: World, m: Mem, c: ArgsCall, i: nat)
    requires |c.ptrs| == |c.lens| && i <= |c.ptrs| && ArgsProgress(w, m, c, i)
    ensures OnlyArgs(w, m, c.d, c.stack)
  {
  }

  lemma SlotBelowDest(c: ArgsCall, i: nat)
    requires i < |c.ptrs| == |c.lens|
    ensures c.to <= c.Slot(i) <= c.Slot(|c.ptrs|) - 4 && c.Slot(i) + 4 <= c.Dest(i)
  {
    OffsetsRise(|c.lens|, c.lens, 0, i);
  }

  lemma WordUntouched(w: World, m1: Mem, d: nat, va: nat, dst: nat, n: nat)
    requires Inv(w) && IsDirectory(w, d) && 0x8000_0000 <= va && va % 4 == 0 && va + 4 <= 0x1_0000_0000
    requires VaMapped(w.mem, d, va) && OnlyPagesOf(w, m1, d) && OnlyRange(w.mem, m1, d, dst, n) && va + 4 <= dst
    ensures VaFrame(w.mem, d, va) < |w.mem| && |m1| == |w.mem| && SameWord(w.mem, m1, VaFrame(w.mem, d, va), va)
  {
    assert OnlyPagesOf(w, w.mem, d) && |m1| == |w.mem|;
    hide Inv, HoldsWord, OnlyPagesOf, OnlyRange, VaMapped, VaFrame;
    WordThrough(w, w.mem, d, va);
    WordThrough(w, m1, d, va);
    var f, q := VaFrame(w.mem, d, va), va % 4096 / 4;
    WordKept(w.mem, m1, d, va, w.mem[f][q], dst, n);
    OneWord(m1, d, va, w.mem[f][q], m1[f][q]);
  }

  lemma OneWord(m: Mem, r: nat, a: nat, v: Word, v': Word)
    requires HoldsWord(m, r, a, v) && HoldsWord(m, r, a, v')
    ensures v == v'
  {
  }

  // Read through d, a word is the one in its frame.
  lemma WordThrough(w: World, m: Mem, d: nat, va: nat)
    requires Inv(w) && IsDirectory(w, d) && va % 4 == 0 && va + 4 <= 0x1_0000_0000
    requires VaMapped(w.mem, d, va) && OnlyPagesOf(w, m, d)
    ensures VaFrame(w.mem, d, va) < |m| && HoldsWord(m, d, va, m[VaFrame(w.mem, d, va)][va % 4096 / 4])
  {
    hide Inv, VaMapped, OnlyPagesOf, FrameByte, VaFrame, RangeMapped, WordOf;
    WordPlace(w, m, d, va, 0);
    WordPlace(w, m, d, va, 1);
    WordPlace(w, m, d, va, 2);
    WordPlace(w, m, d, va, 3);
    FourBytes(m, d, va);
    WordBytes(m[VaFrame(w.mem, d, va)], va % 4096 / 4);
  }

  lemma FourBytes(m: Mem, r: nat, va: nat)
    requires va + 4 <= 0x1_0000_0000
    requires VaMapped(m, r, va) && VaMapped(m, r, va + 1) && VaMapped(m, r, va + 2) && VaMapped(m, r, va + 3)
    ensures RangeMapped(m, r, va, 4)
  {
    hide VaMapped;
  }

  lemma SlotPlace(w: World, m: Mem, c: ArgsCall, i: nat)
    requires ArgsRequest(w, c) && OnlyArgs(w, m, c.d, c.stack) && c.Slot(i) < 0x1_0000_0000
    ensures VaFrame(m, c.d, c.Slot(i)) == VaFrame(w.mem, c.d, c.Slot(i)) && 0x8000_0000 <= c.Slot(i)
  {
    hide Inv, IsString, SourceSafe, HoldsWord, OnlyArgs, VaMapped, VaFrame;
    ArgsWorld(w, m, c.d, c.stack, c.d);
  }

  // The last call of memory_copy_uvm_data in copy_args
  method PassHead(mm: MemoryManager, to: Word, d: nat, stack: nat, x: nat, ghost w: World, ghost c: ArgsCall)
    returns (err: int)
    requires |c.ptrs| == |c.lens| && ArgsState(mm, w, c, |c.ptrs|)
    requires c.to == to && c.d == d && c.stack == stack && c.x == x
    modifies mm.frames
    ensures mm.Valid() && err == 0
    ensures ArgsPassed(w.mem, mm.State().mem, c) && OnlyArgs(w, mm.State().mem, d, stack)
    ensures mm.State() == w.(mem := mm.State().mem)
  {
    hide Inv, OnlyArgs, ArgPassed, UvmCopied, OnlyPagesOf, OnlyCopied, CopyOutcome, CopyRequested, ArgsPassed;
    ghost var m := mm.State().mem;
    HeadRequested(w, m, c);
    ghost var done;
    err, done := CopyUvmData(mm, to, d, stack * 4096 + 4 * x, 12);
    CopyToMapped(w.(mem := m), mm.State().mem, c.s, c.Local(), d, to, 12, done);
    HeadPassed(w, m, mm.State().mem, c);
  }
}
