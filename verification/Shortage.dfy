// Worlds in which the pool runs out, and what is lost then.
module Shortage {
  import opened Counting
  import opened Mmu
  import opened Paging
  import opened Spaces
  import opened Teardown
  import opened Budget
  import opened Memory

  // A cleared frame with one entry set
  function OneEntry(k: nat, e: Word): Frame
    requires k < 1024
  {
    ZeroFrame()[k := e]
  }

  // Frame 1 is the kernel's directory, frame 2 an empty one; frame 3 is free.
  function LastFrame(): World {
    World([ZeroFrame(), ZeroFrame(), ZeroFrame(), ZeroFrame()], map[2 := Directory], 1, 2, 4)
  }

  lemma LastFrameInv()
    ensures Inv(LastFrame()) && Free(LastFrame()) == 1
  {
    var w := LastFrame();
    assert w.owner.Keys == {2};
    forall f: nat, k: nat
      ensures At(w.mem, f, k) == 0
    {
    }
  }

  // A page is asked for in a slot without a table, and there is one frame. memory_alloc_for_page_dir takes it for
  // the page, finds none for the table, and returns 0: nothing is mapped, and the frame is lost.
  lemma AllocLeaks(w: World, w': World, d: nat, va: Word, size: Word, perm: nat, n: nat, reached: World, leak: nat)
    requires UserRequest(w, d, va, size, perm) && Filled(w, w', d, va, size, perm, n, reached, leak)
    requires PageCount(size) >= 1 && Free(w) == 1 && !HasTable(w.mem, d, va / 4096 / 1024)
    ensures n == 0 && leak != 0 && leak !in w.owner && w'.owner == w.owner[leak := InHand]
    ensures !Mapped(w'.mem, d, PdeIndex(va), PteIndex(va))
  {
    VaPage(va);
    var v := va / 4096;
    SpanCostOne(w.mem, d, v);
    assert SpanLacks(w, d, v, PageCount(size), 0);
    hide SpanCost, SpanLacks, Free, HasTable, PageCount, SameData, SameSpace;
    assert n == 0;
    NothingGrew(w, reached, d);
    hide Inv;
    assert Pte(reached.mem, d, PdeIndex(va), PteIndex(va)) == Pte(w.mem, d, PdeIndex(va), PteIndex(va));
  }

  // A space that grew without taking a frame has the same frames as before.
  lemma NothingGrew(w: World, w': World, r: nat)
    requires Grown(w, w', r) && |w'.owner.Keys| == |w.owner.Keys|
    ensures w'.owner == w.owner
  {
    hide Inv, SameSystem, SameData, SameSpace;
    SubsetSize(w.owner.Keys, w'.owner.Keys);
    assert forall f :: f in w.owner ==> w'.owner[f] == w.owner[f];
  }

  // Such a request exists.
  lemma AllocLeakInput()
    ensures UserRequest(LastFrame(), 2, 0x8000_0000, 4096, 7) && Free(LastFrame()) == 1
    ensures !HasTable(LastFrame().mem, 2, 512)
  {
    LastFrameInv();
    hide Inv;
  }

  // Directory 2 has the page 4 at the start of its user half, through table 3. Directory 5 is empty, and frame 6
  // is free.
  function ForkFrame(): World {
    World([ZeroFrame(), ZeroFrame(), OneEntry(512, Entry(3, 7)), OneEntry(0, Entry(4, 7)), ZeroFrame(), ZeroFrame(),
        ZeroFrame()],
          map[2 := Directory, 3 := Table(2, 512), 4 := Page(2, 512, 0), 5 := Directory], 1, 2, 7)
  }

  lemma ForkFrameEntries()
    ensures var m := ForkFrame().mem;
            && |m| == 7
            && (forall f: nat, k: nat :: At(m, f, k) == if f == 2 && k == 512 then Entry(3, 7)
                else if f == 3 && k == 0 then Entry(4, 7) else 0)
            && (forall i: nat :: !HasTable(m, 1, i) && !HasTable(m, 5, i) && (HasTable(m, 2, i) <==> i == 512))
            && TableOf(m, 2, 512) == 3
            && (forall i: nat, j: nat :: Pte(m, 2, i, j) == if i == 512 && j == 0 then Entry(4, 7) else 0)
            && (forall i: nat, j: nat :: Pte(m, 1, i, j) == 0 && Pte(m, 5, i, j) == 0)
            && Present(Entry(4, 7)) && FrameNo(Entry(4, 7)) == 4
  {
    var m := ForkFrame().mem;
    EntryFields(3, 7);
    EntryFields(4, 7);
    forall f: nat, k: nat
      ensures At(m, f, k) == if f == 2 && k == 512 then Entry(3, 7) else if f == 3 && k == 0 then Entry(4, 7) else 0
    {
    }
  }

  lemma ForkFrameInv()
    ensures Inv(ForkFrame()) && CopyGround(ForkFrame(), 2, 5) && Free(ForkFrame()) == 1
  {
    var w := ForkFrame();
    ForkFrameEntries();
    assert w.owner.Keys == {2, 3, 4, 5};
    hide At, Pte, HasTable, TableOf, Entry;
    assert forall r :: IsRoot(w, r) <==> r == 1 || r == 2 || r == 5;
  }

  // The space from is copied when the first frame that is missing is one for a table: memory_copy_uvm2 takes a
  // frame for the copy of a page, gives up, destroys the new space, and the frame is lost.
  lemma ForkLeaks(w: World, w': World, from: nat, to: nat, res: Word, leak: nat, x: nat)
    requires Forked(w, w', from, to, res, leak) && StopsAt(w, from, x, true)
    ensures res == 0xFFFF_FFFF && leak != 0 && leak !in w.owner && w'.owner == (w.owner - {to})[leak := InHand]
  {
    hide StopsAt, UserPages, UserSlots, Free, Grown, SameUserHalf, SameData, SameSpace, Inv;
    assert LacksTable(w, from);
  }

  // Such a copy exists.
  lemma ForkLeakInput()
    ensures CopyGround(ForkFrame(), 2, 5) && StopsAt(ForkFrame(), 2, 0x8_0000, true)
  {
    var w := ForkFrame();
    ForkFrameInv();
    ForkFrameEntries();
    hide ForkFrame, Inv, CopyGround;
    assert PagesBelow(w.mem, 2, 0x8_0000) == {};
    assert SlotsBelow(w.mem, 2, 0x8_0000) == {};
  }
}
