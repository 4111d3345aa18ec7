// Calls that write where they should not: a copy to a page that is not mapped, and a pointer table whose pages
// do not lie together in memory.
module Strays {
  import opened Mmu
  import opened Paging
  import opened Spaces
  import opened Bytes
  import opened Access
  import opened UserCopy
  import opened Args
  import opened Shortage

  // The second page of directory 2 is not mapped, but its slot has a table. A byte for address 0x80001001 goes to
  // byte 1 of frame 0 (CopyGoesAstray).
  lemma StrayCopyInput()
    ensures CopyRequested(ForkFrame(), 2, 0x8000_0000, 2, 0x8000_1001, 1)
    ensures Astray(ForkFrame().mem, 2, 0x8000_1001) && PaddrOf(ForkFrame().mem, 2, 0x8000_1001) == 1
  {
    ForkFrameInv();
    ForkFrameEntries();
    var m := ForkFrame().mem;
    assert PdeIndex(0x8000_1001) == 512 && PteIndex(0x8000_1001) == 1 && Offset(0x8000_1001) == 1;
    assert PdeIndex(0x8000_0000) == 512 && PteIndex(0x8000_0000) == 0;
    assert VaFrame(m, 2, 0x8000_1001) == 0 && VaFrame(m, 2, 0x8000_0000) == 4;
    hide Inv, ForkFrame, Pte, HasTable;
  }

  const STRING: Word := 0x8000_0FFC

  // The page with the pointers, all to the empty string at its end
  function PointerPage(): Frame {
    seq(1024, k => if k < 1022 then STRING else 0)
  }

  // Directory 3 is in use; its first user page, frame 5, has the table of 1022 pointers. The new directory 6 has
  // two pages, frames 8 and 10. Frame 11 is the kernel stack, mapped to itself; frame 9 is the stack of another
  // task.
  function SplitTable(): World {
    World([ZeroFrame(), OneEntry(0, Entry(2, 7)), OneEntry(11, Entry(11, 2)),
           OneEntry(0, Entry(2, 7))[512 := Entry(4, 7)], OneEntry(0, Entry(5, 7)), PointerPage(),
           OneEntry(0, Entry(2, 7))[512 := Entry(7, 7)], OneEntry(0, Entry(8, 7))[1 := Entry(10, 7)],
           ZeroFrame(), ZeroFrame(), ZeroFrame(), ZeroFrame()],
          map[2 := Table(1, 0), 3 := Directory, 4 := Table(3, 512), 5 := Page(3, 512, 0), 6 := Directory,
              7 := Table(6, 512), 8 := Page(6, 512, 0), 9 := Stack, 10 := Page(6, 512, 1), 11 := Stack], 1, 2, 12)
  }

  function SplitCall(): ArgsCall {
    ArgsCall(3, 6, 0x8000_0000, 0x8000_0000, seq(1022, i => STRING), seq(1022, i => 0), 11, 0)
  }

  lemma SplitEntries()
    ensures var m := SplitTable().mem;
            && |m| == 12 && m[5] == PointerPage()
            && (forall i: nat :: HasTable(m, 1, i) <==> i == 0)
            && (forall i: nat :: HasTable(m, 3, i) <==> i == 0 || i == 512)
            && (forall i: nat :: HasTable(m, 6, i) <==> i == 0 || i == 512)
            && TableOf(m, 1, 0) == 2 && TableOf(m, 3, 512) == 4 && TableOf(m, 6, 512) == 7
            && (forall i: nat :: i < 512 ==> At(m, 3, i) == At(m, 1, i) && At(m, 6, i) == At(m, 1, i))
    ensures var m := SplitTable().mem;
            && (forall i: nat, j: nat :: Pte(m, 1, i, j) == if i == 0 && j == 11 then Entry(11, 2) else 0)
            && (forall i: nat, j: nat :: Pte(m, 3, i, j) ==
                  if i == 0 && j == 11 then Entry(11, 2) else if i == 512 && j == 0 then Entry(5, 7) else 0)
            && (forall i: nat, j: nat :: Pte(m, 6, i, j) ==
                  if i == 0 && j == 11 then Entry(11, 2) else if i == 512 && j == 0 then Entry(8, 7)
                  else if i == 512 && j == 1 then Entry(10, 7) else 0)
    ensures forall f: nat, p: nat :: f < 12 && p < 4096 ==> Present(Entry(f, p)) && FrameNo(Entry(f, p)) == f
    ensures var m := SplitTable().mem;
            At(m, 1, 0) == 2 * 4096 + 7 && At(m, 3, 512) == 4 * 4096 + 7 && At(m, 6, 512) == 7 * 4096 + 7
  {
    forall f: nat, p: nat | f < 12 && p < 4096
      ensures Present(Entry(f, p)) && FrameNo(Entry(f, p)) == f
    {
      EntryFields(f, p);
    }
    var m := SplitTable().mem;
    forall f: nat, k: nat
      ensures f == 1 || f == 3 || f == 6 ==>
                At(m, f, k) == if k == 0 then Entry(2, 7) else if k == 512 && f == 3 then Entry(4, 7)
                               else if k == 512 && f == 6 then Entry(7, 7) else 0
      ensures f == 2 ==> At(m, f, k) == if k == 11 then Entry(11, 2) else 0
      ensures f == 4 ==> At(m, f, k) == if k == 0 then Entry(5, 7) else 0
      ensures f == 7 ==> At(m, f, k) == if k == 0 then Entry(8, 7) else if k == 1 then Entry(10, 7) else 0
    {
    }
    hide Entry, FrameNo, Present, At, SplitTable;
  }

  lemma SplitOwners()
    ensures var w := SplitTable();
            && w.kdir == 1 && w.lo == 2 && w.hi == 12
            && (forall f :: f in w.owner <==> 2 <= f < 12)
            && w.owner[2] == Table(1, 0) && w.owner[3] == Directory && w.owner[4] == Table(3, 512)
            && w.owner[5] == Page(3, 512, 0) && w.owner[6] == Directory && w.owner[7] == Table(6, 512)
            && w.owner[8] == Page(6, 512, 0) && Owned(w, 9, Stack) && w.owner[10] == Page(6, 512, 1) &&
                Owned(w, 11, Stack)
            && forall r :: IsRoot(w, r) <==> r == 1 || r == 3 || r == 6
  {
  }

  lemma SplitTables()
    ensures PoolOk(SplitTable()) && TablesOwned(SplitTable()) && KernelShared(SplitTable())
  {
    SplitEntries();
    SplitOwners();
    hide SplitTable, At, Pte, HasTable, TableOf, Entry;
  }

  lemma SplitPages()
    ensures PagesOwned(SplitTable()) && Blank(SplitTable())
  {
    SplitEntries();
    SplitOwners();
    hide SplitTable, At, Pte, HasTable, TableOf, Entry;
  }

  lemma SplitInv()
    ensures Inv(SplitTable())
  {
    var w := SplitTable();
    SplitEntries();
    SplitOwners();
    SplitTables();
    SplitPages();
    hide SplitTable, At, Pte, HasTable, TableOf, Entry, PoolOk, TablesOwned, KernelShared, PagesOwned, Blank;
    forall f | f in w.owner
      ensures RefersBack(w, f)
    {
    }
  }

  // What the two spaces map, by address
  lemma SplitAddresses(va: Word)
    requires 0x8000_0000 <= va < 0x8000_2000 || 11 * 4096 <= va < 12 * 4096
    ensures var m := SplitTable().mem;
            && (va < 0x8000_0000 ==> VaMapped(m, 3, va) && VaFrame(m, 3, va) == 11)
            && (0x8000_0000 <= va < 0x8000_1000 ==>
                  VaMapped(m, 3, va) && VaFrame(m, 3, va) == 5 && VaMapped(m, 6, va) && VaFrame(m, 6, va) == 8)
            && (0x8000_1000 <= va ==> VaMapped(m, 6, va) && VaFrame(m, 6, va) == 10)
  {
    SplitEntries();
    VaPage(va);
    assert va / 4096 == if va < 0x8000_0000 then 11 else if va < 0x8000_1000 then 512 * 1024 else 512 * 1024 + 1;
    hide SplitTable, Pte, Entry, HasTable, TableOf, At;
  }

  lemma SplitOffset(k: nat)
    requires k <= 1022
    ensures StringOffset(1022, SplitCall().lens, k) == 12 + 4 * 1022 + k
  {
    if k > 0 {
      SplitOffset(k - 1);
    }
  }

  lemma SplitRanges()
    ensures var m := SplitTable().mem;
            && RangeMapped(m, 6, 0x8000_0000, 12 + 4 * 1022 + 1022) && RangeMapped(m, 3, 0x8000_0000, 4096)
            && forall va :: 0x8000_0000 <= va < 0x8000_1000 ==> VaFrame(m, 3, va) == 5
  {
    forall va | 0x8000_0000 <= va < 0x8000_2000
      ensures VaMapped(SplitTable().mem, 6, va)
      ensures va < 0x8000_1000 ==> VaMapped(SplitTable().mem, 3, va) && VaFrame(SplitTable().mem, 3, va) == 5
    {
      SplitAddresses(va);
    }
    hide SplitTable, VaMapped, VaFrame;
  }

  lemma SplitPointer(i: nat)
    requires i < 1022
    ensures HoldsWord(SplitTable().mem, 3, 0x8000_0000 + 4 * i, STRING)
  {
    var w, va := SplitTable(), 0x8000_0000 + 4 * i;
    SplitInv();
    SplitOwners();
    SplitEntries();
    SplitAddresses(va);
    assert va % 4096 / 4 == i && PointerPage()[i] == STRING && va % 4 == 0;
    hide SplitTable, Inv, HoldsWord, VaMapped, VaFrame, PointerPage, HasTable, Pte, At, Entry;
    assert OnlyPagesOf(w, w.mem, 3);
    WordThrough(w, w.mem, 3, va);
  }

  lemma SplitString()
    ensures IsString(SplitTable().mem, 3, STRING, 0)
  {
    var m := SplitTable().mem;
    SplitEntries();
    SplitAddresses(STRING);
    assert STRING % 4096 == 0xFFC && PointerPage()[1023] == 0;
    assert FrameByte(PointerPage(), 0xFFC) == 0;
    hide SplitTable, Pte, HasTable, At, Entry, PointerPage, FrameByte;
  }

  lemma SplitSafe(a: nat, n: nat)
    requires 0x8000_0000 <= a && a + n <= 0x8000_1000
    ensures SourceSafe(SplitTable(), 3, a, n, 6, 11)
  {
    var w := SplitTable();
    SplitOwners();
    forall k | a <= k < a + n
      ensures VaMapped(w.mem, 3, k) && VaFrame(w.mem, 3, k) == 5
    {
      SplitAddresses(k);
    }
    hide SplitTable, VaFrame, VaMapped;
  }

  lemma SplitCallParts()
    ensures var c := SplitCall();
            && c.s == 3 && c.d == 6 && c.to == 0x8000_0000 == c.argv && c.stack == 11 && c.x == 0 &&
                c.Local() == 11 * 4096
            && |c.ptrs| == 1022 == |c.lens| && (forall i :: 0 <= i < 1022 ==> c.ptrs[i] == STRING && c.lens[i] == 0)
            && STRING == 0x8000_0FFC
  {
  }

  lemma SplitRequest()
    ensures ArgsRequest(SplitTable(), SplitCall())
  {
    hide *;
    var w, c := SplitTable(), SplitCall();
    SplitCallParts();
    SplitInv();
    SplitOwners();
    SplitDirectories();
    SplitRanges();
    SplitOffset(1022);
    SplitString();
    SplitSafe(0x8000_0000, 4 * 1022);
    SplitSafe(STRING, 1);
    SplitAddresses(11 * 4096);
    forall i | 0 <= i < 1022
      ensures HoldsWord(w.mem, 3, 0x8000_0000 + 4 * i, STRING)
    {
      SplitPointer(i);
    }
    RequestOf(w, c, STRING);
  }

  lemma SplitDirectories()
    ensures IsRoot(SplitTable(), 3) && IsDirectory(SplitTable(), 6)
  {
  }

  // A request with all pointers to one empty string
  lemma RequestOf(w: World, c: ArgsCall, str: Word)
    requires Inv(w) && IsRoot(w, c.s) && IsDirectory(w, c.d) && c.to == 0x8000_0000 && Owned(w, c.stack, Stack)
    requires |c.ptrs| == |c.lens| && forall i :: 0 <= i < |c.ptrs| ==> c.ptrs[i] == str && c.lens[i] == 0
    requires RangeMapped(w.mem, c.d, c.to, StringOffset(|c.lens|, c.lens, |c.lens|))
    requires c.x + 3 <= 1024 && c.Local() < 0x8000_0000
    requires VaMapped(w.mem, c.s, c.Local()) && VaFrame(w.mem, c.s, c.Local()) == c.stack
    requires SourceSafe(w, c.s, c.argv, 4 * |c.ptrs|, c.d, c.stack)
    requires forall i :: 0 <= i < |c.ptrs| ==> HoldsWord(w.mem, c.s, c.argv + 4 * i, str)
    requires str != 0 && SourceSafe(w, c.s, str, 1, c.d, c.stack) && IsString(w.mem, c.s, str, 0)
    ensures ArgsRequest(w, c)
  {
    hide Inv, VaMapped, VaFrame, SourceSafe, HoldsWord, IsString, RangeMapped, StringOffset;
  }

  lemma SplitTogether(i: nat)
    requires i < 1022
    ensures EntryTogether(SplitTable().mem, SplitCall(), i) <==> i < 1021
  {
    SplitCallParts();
    SplitAddresses(0x8000_0000);
    SplitAddresses(0x8000_000C + 4 * i);
    hide SplitTable, SplitCall, VaFrame, VaMapped;
  }

  lemma SplitPaddr()
    ensures PaddrOf(SplitTable().mem, 6, 0x8000_000C) == 8 * 4096 + 12
  {
    SplitAddresses(0x8000_000C);
    PaddrTranslates(SplitTable().mem, 6, 0x8000_000C);
    hide SplitTable, VaFrame, VaMapped, PaddrOf;
  }

  // Everything copy_args asks for is there, but entry 1021 of the table is not together with the block: its
  // pointer goes to frame 9, the stack of another task (EntryAstray).
  lemma StrayEntryInput()
    ensures ArgsRequest(SplitTable(), SplitCall())
    ensures forall i: nat :: i < 1022 ==> (EntryTogether(SplitTable().mem, SplitCall(), i) <==> i < 1021)
    ensures (PaddrOf(SplitTable().mem, 6, 0x8000_000C) + 4 * 1021) / 4096 == 9 && Owned(SplitTable(), 9, Stack)
  {
    SplitRequest();
    SplitOwners();
    SplitPaddr();
    hide *;
    forall i: nat | i < 1022
      ensures EntryTogether(SplitTable().mem, SplitCall(), i) <==> i < 1021
    {
      SplitTogether(i);
    }
  }
}
